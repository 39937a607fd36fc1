/** The receiving half (tuya_p2p/_kcp_python.py:197-224, 284-299, 419-449). */
module KcpReceive {
  // The reorder buffer behaves as a set of sequence numbers in the receive window, and what leaves it is in order.

  import opened Serial
  import opened KcpModel

  /** How far a sequence number lies past the next one expected. */
  function Off(n: Numbering, r: Receiver, sn: int): int {
    Diff(n, sn, r.nxt)
  }

  predicate Window(n: Numbering, wnd: int) {
    1 <= wnd && (n.Wrapping? ==> wnd < HALF)
  }

  predicate Ascending(n: Numbering, r: Receiver) {
    forall i, j :: 0 <= i < j < |r.buf| ==> Off(n, r, r.buf[i].sn) < Off(n, r, r.buf[j].sn)
  }

  predicate Inside(n: Numbering, r: Receiver) {
    forall i :: 0 <= i < |r.buf| ==> Storable(n, r.buf[i].sn) && 0 <= Off(n, r, r.buf[i].sn) < r.wnd
  }

  /** The reorder buffer is a sorted set inside the window; the queue may still have room for its head. */
  predicate Sorted(n: Numbering, r: Receiver) {
    Window(n, r.wnd) && Storable(n, r.nxt) && |r.queue| <= r.wnd && Inside(n, r) && Ascending(n, r)
  }

  /** What holds between calls: in addition, the head is next in order only when the queue is full. */
  predicate RecvOk(n: Numbering, r: Receiver) {
    Sorted(n, r) && !Promotable(n, r)
  }

  function Sns(buf: seq<Segment>): set<int> {
    set seg <- buf :: seg.sn
  }

  // ---------------------------------------------------------------- the window test

  /** The two comparisons of the source say that a sequence number lies in the window. */
  lemma WindowTest(n: Numbering, r: Receiver, sn: int)
    requires Window(n, r.wnd)
    ensures Diff(n, sn, Norm(n, r.nxt + r.wnd)) < 0 && Diff(n, sn, r.nxt) >= 0 <==> 0 <= Off(n, r, sn) < r.wnd
  {
    if Off(n, r, sn) >= 0 {
      DiffMinus(n, sn, r.nxt, r.wnd);
    }
  }

  /** Within the window, distances between two numbers are differences of their offsets. */
  lemma OffGap(n: Numbering, r: Receiver, x: int, y: int)
    requires Window(n, r.wnd)
    requires 0 <= Off(n, r, x) < r.wnd && 0 <= Off(n, r, y) < r.wnd
    ensures Diff(n, x, y) == Off(n, r, x) - Off(n, r, y)
  {
    DiffSwap(n, y, r.nxt);
    DiffChain(n, x, r.nxt, y);
  }

  lemma SameOff(n: Numbering, r: Receiver, x: int, y: int)
    requires Window(n, r.wnd) && Storable(n, x) && Storable(n, y)
    requires 0 <= Off(n, r, x) < r.wnd && 0 <= Off(n, r, y) < r.wnd
    ensures Off(n, r, x) == Off(n, r, y) <==> x == y
  {
    OffGap(n, r, x, y);
    DiffZero(n, x, y);
  }

  /** A sorted buffer never holds more segments than the window is wide. */
  lemma {:induction false} BufferFits(n: Numbering, r: Receiver, i: nat)
    requires Sorted(n, r) && i < |r.buf|
    ensures i <= Off(n, r, r.buf[i].sn) && |r.buf| <= r.wnd
  {
    if i > 0 {
      BufferFits(n, r, i - 1);
    }
    if i < |r.buf| - 1 {
      BufferFitsFrom(n, r, i + 1);
    } else {
      BufferFitsFrom(n, r, i);
    }
  }

  lemma {:induction false} BufferFitsFrom(n: Numbering, r: Receiver, i: nat)
    requires Sorted(n, r) && i < |r.buf|
    ensures Off(n, r, r.buf[i].sn) + (|r.buf| - i) <= r.wnd
    decreases |r.buf| - i
  {
    if i < |r.buf| - 1 {
      BufferFitsFrom(n, r, i + 1);
    }
  }

  // ---------------------------------------------------------------- insertion

  /** Insertion into a list sorted by distance from a base, from the front: the reference. */
  function InsertSorted(n: Numbering, base: int, buf: seq<Segment>, seg: Segment): seq<Segment> {
    if buf == [] then [seg]
    else if Diff(n, seg.sn, base) == Diff(n, buf[0].sn, base) then buf
    else if Diff(n, seg.sn, base) < Diff(n, buf[0].sn, base) then [seg] + buf
    else [buf[0]] + InsertSorted(n, base, buf[1..], seg)
  }

  /** The backwards scan finds the number if it is there, and otherwise its place. */
  lemma {:induction false} ScanBackFinds(n: Numbering, r: Receiver, k: nat, sn: int)
    requires Sorted(n, r) && k <= |r.buf|
    requires Storable(n, sn) && 0 <= Off(n, r, sn) < r.wnd
    ensures var at := ScanBack(n, r.buf[..k], sn);
            && (at.None? <==> exists i :: 0 <= i < k && r.buf[i].sn == sn)
            && (at.Some? ==>
                  && (forall i :: 0 <= i < at.value ==> Off(n, r, r.buf[i].sn) < Off(n, r, sn))
                  && (forall i :: at.value <= i < k ==> Off(n, r, sn) < Off(n, r, r.buf[i].sn)))
  {
    if k > 0 {
      var last := r.buf[k - 1];
      assert r.buf[..k][..k - 1] == r.buf[..k - 1];
      ScanBackFinds(n, r, k - 1, sn);
      OffGap(n, r, sn, last.sn);
      SameOff(n, r, sn, last.sn);
    }
  }

  lemma {:induction false} InsertAtPlace(n: Numbering, base: int, buf: seq<Segment>, seg: Segment, at: nat)
    requires at <= |buf|
    requires forall i :: 0 <= i < at ==> Diff(n, buf[i].sn, base) < Diff(n, seg.sn, base)
    requires forall i :: at <= i < |buf| ==> Diff(n, seg.sn, base) < Diff(n, buf[i].sn, base)
    ensures InsertSorted(n, base, buf, seg) == buf[..at] + [seg] + buf[at..]
  {
    if at > 0 {
      InsertAtPlace(n, base, buf[1..], seg, at - 1);
      assert [buf[0]] + (buf[1..][..at - 1] + [seg] + buf[1..][at - 1..]) == buf[..at] + [seg] + buf[at..];
    }
  }

  lemma {:induction false} InsertPresent(n: Numbering, base: int, buf: seq<Segment>, seg: Segment, at: nat)
    requires at < |buf| && Diff(n, buf[at].sn, base) == Diff(n, seg.sn, base)
    requires forall i :: 0 <= i < at ==> Diff(n, buf[i].sn, base) < Diff(n, seg.sn, base)
    ensures InsertSorted(n, base, buf, seg) == buf
  {
    if at > 0 {
      InsertPresent(n, base, buf[1..], seg, at - 1);
    }
  }

  /** Putting a segment at its place keeps the buffer a sorted set. */
  lemma PlacedSorted(n: Numbering, r: Receiver, seg: Segment, at: nat)
    requires Sorted(n, r) && at <= |r.buf|
    requires Storable(n, seg.sn) && 0 <= Off(n, r, seg.sn) < r.wnd
    requires forall i :: 0 <= i < at ==> Off(n, r, r.buf[i].sn) < Off(n, r, seg.sn)
    requires forall i :: at <= i < |r.buf| ==> Off(n, r, seg.sn) < Off(n, r, r.buf[i].sn)
    ensures Sorted(n, r.(buf := r.buf[..at] + [seg] + r.buf[at..]))
  {
    var b := r.buf[..at] + [seg] + r.buf[at..];
    var r' := r.(buf := b);
    forall i | 0 <= i < |b|
      ensures Storable(n, b[i].sn) && 0 <= Off(n, r', b[i].sn) < r.wnd
    {
      assert b[i] == if i < at then r.buf[i] else if i == at then seg else r.buf[i - 1];
    }
    forall i, j | 0 <= i < j < |b|
      ensures Off(n, r', b[i].sn) < Off(n, r', b[j].sn)
    {
      assert b[i] == if i < at then r.buf[i] else if i == at then seg else r.buf[i - 1];
      assert b[j] == if j < at then r.buf[j] else if j == at then seg else r.buf[j - 1];
    }
  }

  lemma PlacedMembers(buf: seq<Segment>, seg: Segment, at: nat)
    requires at <= |buf|
    ensures forall s :: s in buf[..at] + [seg] + buf[at..] <==> s in buf || s == seg
  {
    assert buf == buf[..at] + buf[at..];
  }

  lemma PlacedSns(buf: seq<Segment>, b: seq<Segment>, seg: Segment)
    requires forall s :: s in b <==> s in buf || s == seg
    ensures Sns(b) == Sns(buf) + {seg.sn}
  {
    forall sn | sn in Sns(b)
      ensures sn in Sns(buf) + {seg.sn}
    {
      var s :| s in b && s.sn == sn;
    }
    forall sn | sn in Sns(buf) + {seg.sn}
      ensures sn in Sns(b)
    {
      if sn == seg.sn {
        assert seg in b;
      } else {
        var s :| s in buf && s.sn == sn;
        assert s in b;
      }
    }
  }

  lemma InsertKnown(n: Numbering, r: Receiver, seg: Segment)
    requires Sorted(n, r) && Storable(n, seg.sn) && exists i :: 0 <= i < |r.buf| && r.buf[i].sn == seg.sn
    ensures InsertSorted(n, r.nxt, r.buf, seg) == r.buf && seg.sn in Sns(r.buf) && r.(buf := r.buf) == r
  {
    var i :| 0 <= i < |r.buf| && r.buf[i].sn == seg.sn;
    InsertPresent(n, r.nxt, r.buf, seg, i);
    assert r.buf[i] in r.buf;
  }

  /** The backwards scan inserts where sorted insertion would, and drops exactly the duplicates. */
  lemma InsertIsSorted(n: Numbering, r: Receiver, seg: Segment)
    requires Sorted(n, r)
    requires Storable(n, seg.sn) && 0 <= Off(n, r, seg.sn) < r.wnd
    ensures Insert(n, r.buf, seg) == InsertSorted(n, r.nxt, r.buf, seg)
    ensures Insert(n, r.buf, seg) == r.buf <==> seg.sn in Sns(r.buf)
    ensures Sns(Insert(n, r.buf, seg)) == Sns(r.buf) + {seg.sn}
    ensures forall s <- Insert(n, r.buf, seg) :: s in r.buf || s == seg
    ensures forall s <- r.buf :: s in Insert(n, r.buf, seg)
    ensures Sorted(n, r.(buf := Insert(n, r.buf, seg)))
  {
    var k := |r.buf|;
    assert r.buf[..k] == r.buf;
    ScanBackFinds(n, r, k, seg.sn);
    match ScanBack(n, r.buf, seg.sn)
    case None =>
      InsertKnown(n, r, seg);
    case Some(at) =>
      InsertAtPlace(n, r.nxt, r.buf, seg, at);
      PlacedMembers(r.buf, seg, at);
      PlacedSns(r.buf, r.buf[..at] + [seg] + r.buf[at..], seg);
      PlacedSorted(n, r, seg, at);
  }

  // ---------------------------------------------------------------- promotion

  /** How many segments promotion moves. */
  function Promoted(n: Numbering, r: Receiver): (k: nat)
    ensures k <= |r.buf|
    decreases |r.buf|
  {
    if Promotable(n, r)
    then 1 + Promoted(n, r.(buf := r.buf[1..], queue := r.queue + [r.buf[0]], nxt := Norm(n, r.nxt + 1)))
    else 0
  }

  lemma PromoteOne(n: Numbering, r: Receiver)
    requires Sorted(n, r) && Promotable(n, r)
    ensures var r' := r.(buf := r.buf[1..], queue := r.queue + [r.buf[0]], nxt := Norm(n, r.nxt + 1));
            && Sorted(n, r')
            && (forall i :: 0 <= i < |r'.buf| ==> Off(n, r', r'.buf[i].sn) == Off(n, r, r'.buf[i].sn) - 1)
  {
    var r' := r.(buf := r.buf[1..], queue := r.queue + [r.buf[0]], nxt := Norm(n, r.nxt + 1));
    NormHolds(n, r.nxt + 1);
    forall i | 0 <= i < |r'.buf|
      ensures Off(n, r', r'.buf[i].sn) == Off(n, r, r'.buf[i].sn) - 1
    {
      assert r'.buf[i] == r.buf[i + 1];
      DiffMinus(n, r'.buf[i].sn, r.nxt, 1);
    }
    forall i | 0 <= i < |r'.buf|
      ensures 0 <= Off(n, r', r'.buf[i].sn) < r'.wnd
    {
      assert r'.buf[i] == r.buf[i + 1];
      assert Off(n, r, r.buf[0].sn) < Off(n, r, r.buf[i + 1].sn);
    }
    forall i, j | 0 <= i < j < |r'.buf|
      ensures Off(n, r', r'.buf[i].sn) < Off(n, r', r'.buf[j].sn)
    {
      assert r'.buf[i] == r.buf[i + 1] && r'.buf[j] == r.buf[j + 1];
    }
  }

  function PromoteHead(n: Numbering, r: Receiver): Receiver
    requires r.buf != []
  {
    r.(buf := r.buf[1..], queue := r.queue + [r.buf[0]], nxt := Norm(n, r.nxt + 1))
  }

  lemma {:induction false} PromoteLeaves(n: Numbering, r: Receiver)
    requires Sorted(n, r)
    ensures RecvOk(n, Promote(n, r))
    decreases |r.buf|
  {
    if Promotable(n, r) {
      PromoteOne(n, r);
      PromoteLeaves(n, PromoteHead(n, r));
    }
  }

  /** Promotion moves a run of consecutive numbers, starting at the next one expected, in order. */
  lemma {:induction false} PromoteShape(n: Numbering, r: Receiver)
    ensures var k := Promoted(n, r);
            && Promote(n, r) == r.(buf := r.buf[k..], queue := r.queue + r.buf[..k], nxt := Promote(n, r).nxt)
            && (n.Unbounded? ==> Promote(n, r).nxt == r.nxt + k)
    decreases |r.buf|
  {
    if Promotable(n, r) {
      PromoteShape(n, PromoteHead(n, r));
      var k := Promoted(n, PromoteHead(n, r));
      assert r.queue + [r.buf[0]] + r.buf[1..][..k] == r.queue + r.buf[..k + 1];
      assert r.buf[1..][k..] == r.buf[k + 1..];
    } else {
      assert r.queue + r.buf[..0] == r.queue;
    }
  }

  lemma {:induction false} PromotedInOrder(n: Numbering, r: Receiver)
    requires Sorted(n, r)
    ensures forall i :: 0 <= i < Promoted(n, r) ==> Off(n, r, r.buf[i].sn) == i
    decreases |r.buf|
  {
    if Promotable(n, r) {
      var r' := PromoteHead(n, r);
      PromoteOne(n, r);
      PromotedInOrder(n, r');
      forall i | 0 <= i < Promoted(n, r)
        ensures Off(n, r, r.buf[i].sn) == i
      {
        if i > 0 {
          assert r'.buf[i - 1] == r.buf[i];
        }
      }
    }
  }

  // ---------------------------------------------------------------- the operations

  lemma ParseDataKeeps(n: Numbering, r: Receiver, seg: Segment)
    requires RecvOk(n, r) && Storable(n, seg.sn)
    ensures RecvOk(n, ParseData(n, r, seg))
  {
    WindowTest(n, r, seg.sn);
    if 0 <= Off(n, r, seg.sn) < r.wnd {
      InsertIsSorted(n, r, seg);
      PromoteLeaves(n, r.(buf := Insert(n, r.buf, seg)));
    }
  }

  lemma AbsorbKeepsRecvOk(n: Numbering, r: Receiver, w: Wire)
    requires RecvOk(n, r) && Storable(n, w.sn)
    ensures RecvOk(n, ReceiverAbsorb(n, r, w))
  {
    var noted := r.(acks := r.acks + [(w.sn, w.ts)]);
    assert RecvOk(n, noted);
    ParseDataKeeps(n, noted, Arrived(w));
  }

  lemma {:induction false} AbsorbAllKeepsRecvOk(n: Numbering, e: Endpoint, ws: seq<Wire>)
    requires RecvOk(n, e.r) && forall w <- ws :: Storable(n, w.sn)
    ensures RecvOk(n, AbsorbAll(n, e, ws).r)
    decreases |ws|
  {
    if ws != [] {
      AbsorbKeepsRecvOk(n, e.r, ws[0]);
      AbsorbAllKeepsRecvOk(n, Absorb(n, e, ws[0]), ws[1..]);
    }
  }

  /** The reorder buffer stays a sorted set in the window whatever datagrams arrive, well-formed peers or not. */
  lemma InputKeepsRecvOk(n: Numbering, e: Endpoint, ws: seq<Wire>)
    requires e.Mss() > 0
    requires RecvOk(n, e.r) && forall w <- ws :: Storable(n, w.sn)
    ensures RecvOk(n, Input(n, e, ws).r)
  {
    AbsorbAllKeepsRecvOk(n, e, ws);
  }

  lemma RecvKeepsRecvOk(n: Numbering, r: Receiver)
    requires RecvOk(n, r)
    ensures RecvOk(n, Recv(n, r).0)
  {
    if PeekSize(r.queue) >= 0 {
      var r' := r.(queue := r.queue[MessageSpan(r.queue)..]);
      assert Sorted(n, r');
      PromoteLeaves(n, r');
    }
  }

  // ---------------------------------------------------------------- a wider window

  /** Widening the window keeps the invariant exactly when no segment that is next in order waits for room. */
  lemma WidenKeepsIff(n: Numbering, r: Receiver, wnd: int)
    requires RecvOk(n, r) && r.wnd < wnd && Window(n, wnd)
    ensures RecvOk(n, r.(wnd := wnd)) <==> r.buf == [] || Diff(n, r.buf[0].sn, r.nxt) != 0
  {
    var r' := r.(wnd := wnd);
    forall i | 0 <= i < |r.buf|
      ensures Off(n, r', r'.buf[i].sn) == Off(n, r, r.buf[i].sn)
    {
    }
  }

  /** Two segments for a receiver with a window of one, and the window that `wndsize` puts in its place. */
  lemma WidenBreaks(conv: int)
    ensures var w0 := Wire(conv, CMD_PUSH, 0, 128, 0, 0, 0, [7]);
            var r := ReceiverAbsorb(Wrapping, ReceiverAbsorb(Wrapping, Receiver(0, 1, [], [], []), w0), w0.(sn := 1));
            RecvOk(Wrapping, r) && !RecvOk(Wrapping, r.(wnd := WND_RCV))
  {
    var w0 := Wire(conv, CMD_PUSH, 0, 128, 0, 0, 0, [7]);
    var w1 := w0.(sn := 1);
    TakesFirst(w0);
    KeepsSecond(Receiver(1, 1, [Arrived(w0)], [], [(0, 0)]), w1);
  }

  lemma TakesFirst(w: Wire)
    requires w.cmd == CMD_PUSH && w.sn == 0 && w.ts == 0
    ensures ReceiverAbsorb(Wrapping, Receiver(0, 1, [], [], []), w) == Receiver(1, 1, [Arrived(w)], [], [(0, 0)])
  {
    var noted := Receiver(0, 1, [], [], [(0, 0)]);
    assert Insert(Wrapping, [], Arrived(w)) == [Arrived(w)];
    var put := noted.(buf := [Arrived(w)]);
    var taken := Receiver(1, 1, [Arrived(w)], [], [(0, 0)]);
    assert PromoteHead(Wrapping, put) == taken;
    assert Promote(Wrapping, put) == Promote(Wrapping, taken) == taken;
    assert Itimediff(0, 1) == -1 && Itimediff(0, 0) == 0 && [] + [(0, 0)] == [(0, 0)];
  }

  lemma KeepsSecond(r: Receiver, w: Wire)
    requires r.nxt == 1 && r.wnd == 1 && |r.queue| == 1 && r.buf == [] && w.cmd == CMD_PUSH && w.sn == 1
    ensures var r' := ReceiverAbsorb(Wrapping, r, w);
            RecvOk(Wrapping, r') && !RecvOk(Wrapping, r'.(wnd := WND_RCV))
  {
    var noted := r.(acks := r.acks + [(w.sn, w.ts)]);
    assert Insert(Wrapping, [], Arrived(w)) == [Arrived(w)];
    assert !Promotable(Wrapping, noted.(buf := [Arrived(w)]));
    WidenKeepsIff(Wrapping, noted.(buf := [Arrived(w)]), WND_RCV);
  }
}
