/** The sending half (tuya_p2p/_kcp_python.py:387-417, 498-517). */
module KcpSend {
  // The send buffer is an ascending list inside the send window, and the scans that stop early do what a scan of the
  // whole buffer would.

  import opened Serial
  import opened KcpModel

  /** How far a sequence number lies past the oldest unacknowledged one. */
  function Ahead(n: Numbering, s: Sender, sn: int): int {
    Diff(n, sn, s.una)
  }

  /** How many numbers are in use. */
  function Span(n: Numbering, s: Sender): int {
    Diff(n, s.nxt, s.una)
  }

  /** The send buffer ascends from una on and stays below nxt, which is at most w ahead of una. */
  predicate Ordered(n: Numbering, s: Sender, w: int) {
    && 0 <= w < HALF / 2
    && Storable(n, s.una) && Storable(n, s.nxt)
    && 0 <= Span(n, s) <= w
    && (forall i :: 0 <= i < |s.buf| ==>
          Storable(n, s.buf[i].sn) && 0 <= Ahead(n, s, s.buf[i].sn) < Span(n, s))
    && (forall i, j :: 0 <= i < j < |s.buf| ==> Ahead(n, s, s.buf[i].sn) < Ahead(n, s, s.buf[j].sn))
  }

  /** What holds between calls: in addition, una is the head's number, or nxt when nothing is unacknowledged. */
  predicate SendOk(n: Numbering, s: Sender, w: int) {
    Ordered(n, s, w) && s.una == if s.buf == [] then s.nxt else s.buf[0].sn
  }

  /** Distances from a newer base are the old ones less the distance between the bases. */
  lemma Rebase(n: Numbering, a: int, base: int, x: int)
    requires 0 <= Diff(n, a, base) < HALF / 2 && 0 <= Diff(n, x, base) < HALF / 2
    ensures Diff(n, x, a) == Diff(n, x, base) - Diff(n, a, base)
  {
    DiffSwap(n, a, base);
    DiffChain(n, x, base, a);
  }

  // ---------------------------------------------------------------- scans that stop early

  /** The whole buffer filtered: segments that una does not cover. */
  function Uncovered(n: Numbering, buf: seq<Segment>, una: int): seq<Segment> {
    if buf == [] then []
    else (if Diff(n, una, buf[0].sn) > 0 then [] else [buf[0]]) + Uncovered(n, buf[1..], una)
  }

  /** The whole buffer filtered: segments other than number sn. */
  function Without(buf: seq<Segment>, sn: int): seq<Segment> {
    if buf == [] then []
    else (if buf[0].sn == sn then [] else [buf[0]]) + Without(buf[1..], sn)
  }

  /** The tail of an ordered sender, seen from the same una. */
  function Tail(s: Sender): Sender
    requires s.buf != []
  {
    s.(buf := s.buf[1..])
  }

  lemma TailOrdered(n: Numbering, s: Sender, w: int)
    requires Ordered(n, s, w) && s.buf != []
    ensures Ordered(n, Tail(s), w)
  {
    forall i | 0 <= i < |Tail(s).buf|
      ensures Tail(s).buf[i] == s.buf[i + 1]
    {
    }
  }

  lemma {:induction false} NoneCovered(n: Numbering, buf: seq<Segment>, una: int)
    requires forall i :: 0 <= i < |buf| ==> Diff(n, una, buf[i].sn) <= 0
    ensures Uncovered(n, buf, una) == buf
  {
    if buf != [] {
      NoneCovered(n, buf[1..], una);
    }
  }

  lemma {:induction false} UncoveredMembers(n: Numbering, buf: seq<Segment>, una: int)
    ensures forall seg :: seg in Uncovered(n, buf, una) <==> seg in buf && Diff(n, una, seg.sn) <= 0
  {
    if buf != [] {
      UncoveredMembers(n, buf[1..], una);
      assert buf == [buf[0]] + buf[1..];
    }
  }

  lemma {:induction false} WithoutMembers(buf: seq<Segment>, sn: int)
    ensures forall seg :: seg in Without(buf, sn) <==> seg in buf && seg.sn != sn
  {
    if buf != [] {
      WithoutMembers(buf[1..], sn);
      assert buf == [buf[0]] + buf[1..];
    }
  }

  /** Seen from una, a number that is not behind the window compares with the buffer as its distance does. */
  lemma CompareAhead(n: Numbering, s: Sender, w: int, x: int, i: nat)
    requires Ordered(n, s, w) && i < |s.buf|
    requires n.Wrapping? ==> Ahead(n, s, x) - Ahead(n, s, s.buf[i].sn) >= -HALF
    ensures Diff(n, x, s.buf[i].sn) == Ahead(n, s, x) - Ahead(n, s, s.buf[i].sn)
  {
    DiffSwap(n, s.buf[i].sn, s.una);
    DiffChain(n, x, s.una, s.buf[i].sn);
  }

  /** A number behind una by more than half a cycle less the window looks ahead of the later segments. */
  lemma CompareBehind(n: Numbering, s: Sender, w: int, x: int, i: nat)
    requires Ordered(n, s, w) && i < |s.buf| && n.Wrapping?
    requires Ahead(n, s, x) - Ahead(n, s, s.buf[i].sn) < -HALF
    ensures Diff(n, x, s.buf[i].sn) == Ahead(n, s, x) - Ahead(n, s, s.buf[i].sn) + M32
  {
    var k1, k2 := Cycles(x, s.una), Cycles(s.buf[i].sn, s.una);
    var d := Ahead(n, s, x) - Ahead(n, s, s.buf[i].sn) + M32;
    assert x - s.buf[i].sn == d + M32 * (k1 - k2 - 1);
    ShiftResidue(d, k1 - k2 - 1);
    ItimediffExact(d, 0);
  }

  /** The cumulative acknowledgement's early stop, when it does compare straight. */
  lemma {:induction false} UnaStopsRight(n: Numbering, s: Sender, w: int, una: int)
    requires Ordered(n, s, w)
    requires forall i :: 0 <= i < |s.buf| ==>
      Diff(n, una, s.buf[i].sn) == Ahead(n, s, una) - Ahead(n, s, s.buf[i].sn)
    ensures s.buf[Covered(n, s.buf, una)..] == Uncovered(n, s.buf, una)
    decreases |s.buf|
  {
    if s.buf != [] {
      if Diff(n, una, s.buf[0].sn) > 0 {
        TailOrdered(n, s, w);
        forall i | 0 <= i < |Tail(s).buf|
          ensures Tail(s).buf[i] == s.buf[i + 1]
        {
        }
        UnaStopsRight(n, Tail(s), w, una);
        assert s.buf[1..][Covered(n, s.buf[1..], una)..] == s.buf[Covered(n, s.buf, una)..];
      } else {
        NoneCovered(n, s.buf, una);
      }
    }
  }

  predicate Straddles(n: Numbering, buf: seq<Segment>, una: int) {
    buf != [] && Diff(n, una, buf[0].sn) <= 0 < Diff(n, una, buf[|buf| - 1].sn)
  }

  /**
   The early stop in `_parse_una` gives the same result as filtering the whole buffer exactly when una does not look
   at the same time not ahead of the first segment and ahead of the last.
   */
  lemma UnaEarlyStop(n: Numbering, s: Sender, w: int, una: int)
    requires SendOk(n, s, w)
    ensures s.buf[Covered(n, s.buf, una)..] == Uncovered(n, s.buf, una) <==> !Straddles(n, s.buf, una)
  {
    if s.buf != [] {
      var last := |s.buf| - 1;
      DiffZero(n, s.buf[0].sn, s.una);
      if Straddles(n, s.buf, una) {
        assert s.buf[Covered(n, s.buf, una)..] == s.buf;
        UncoveredMembers(n, s.buf, una);
        assert s.buf[last] in s.buf && s.buf[last] !in Uncovered(n, s.buf, una);
      } else {
        CompareAhead(n, s, w, una, 0);
        forall i | 0 <= i < |s.buf|
          ensures Diff(n, una, s.buf[i].sn) == Ahead(n, s, una) - Ahead(n, s, s.buf[i].sn)
        {
          if n.Wrapping? && Ahead(n, s, una) - Ahead(n, s, s.buf[i].sn) < -HALF {
            assert Ahead(n, s, s.buf[i].sn) <= Ahead(n, s, s.buf[last].sn);
            CompareBehind(n, s, w, una, last);
            assert false;
          }
          CompareAhead(n, s, w, una, i);
        }
        UnaStopsRight(n, s, w, una);
      }
    }
  }

  /** In unbounded numbering no number straddles the buffer. */
  lemma UnboundedNeverStraddles(s: Sender, w: int, una: int)
    requires Ordered(Unbounded, s, w)
    ensures !Straddles(Unbounded, s.buf, una)
  {
    if |s.buf| > 1 {
      assert Ahead(Unbounded, s, s.buf[0].sn) < Ahead(Unbounded, s, s.buf[|s.buf| - 1].sn);
    }
  }

  /** A cumulative acknowledgement half a cycle away makes the early stop and the full filter differ. */
  lemma UnaEarlyStopCanDiffer()
    ensures exists s: Sender, una: int ::
      SendOk(Wrapping, s, 2) && 0 <= una < M32
      && s.buf[Covered(Wrapping, s.buf, una)..] != Uncovered(Wrapping, s.buf, una)
  {
    var seg := Segment(0, CMD_PUSH, 0, 0, 0, 0, 0, [], 0, 0, 0, 1);
    var s := Sender(0, 2, [], [seg, seg.(sn := 1)]);
    assert SendOk(Wrapping, s, 2);
    assert Diff(Wrapping, HALF, 0) == -HALF;
    assert Diff(Wrapping, HALF, 1) == HALF - 1;
    assert Straddles(Wrapping, s.buf, HALF);
    UnaEarlyStop(Wrapping, s, 2, HALF);
  }

  /** The early stop in `_parse_ack`: removing the one segment equals filtering the whole buffer. */
  lemma {:induction false} AckEarlyStop(n: Numbering, s: Sender, w: int, sn: int)
    requires Ordered(n, s, w) && Storable(n, sn) && InFlight(n, s, sn)
    ensures RemoveAcked(n, s.buf, sn) == Without(s.buf, sn)
    decreases |s.buf|
  {
    if s.buf != [] {
      forall i | 0 <= i < |s.buf|
        ensures Diff(n, sn, s.buf[i].sn) == Ahead(n, s, sn) - Ahead(n, s, s.buf[i].sn)
        ensures Diff(n, sn, s.buf[i].sn) == 0 <==> s.buf[i].sn == sn
      {
        CompareAhead(n, s, w, sn, i);
        DiffZero(n, sn, s.buf[i].sn);
      }
      if sn == s.buf[0].sn || Diff(n, sn, s.buf[0].sn) < 0 {
        AbsentAll(s.buf[1..], sn);
        AbsentAll(s.buf, sn);
      } else {
        TailOrdered(n, s, w);
        AckEarlyStop(n, Tail(s), w, sn);
      }
    }
  }

  lemma {:induction false} AbsentAll(buf: seq<Segment>, sn: int)
    ensures (forall i :: 0 <= i < |buf| ==> buf[i].sn != sn) ==> Without(buf, sn) == buf
  {
    if buf != [] {
      AbsentAll(buf[1..], sn);
    }
  }

  /** The early stop in `_parse_fastack`: exactly the segments up to sn are looked at. */
  lemma {:induction false} FastackEarlyStop(n: Numbering, s: Sender, w: int, sn: int, ts: int)
    requires Ordered(n, s, w) && Storable(n, sn) && InFlight(n, s, sn)
    ensures forall i :: 0 <= i < |s.buf| ==>
      CountSkips(n, s.buf, sn, ts)[i]
      == if Diff(n, sn, s.buf[i].sn) < 0 then s.buf[i] else Skipped(s.buf[i], sn, ts)
    decreases |s.buf|
  {
    if s.buf != [] {
      forall i | 0 <= i < |s.buf|
        ensures Diff(n, sn, s.buf[i].sn) == Ahead(n, s, sn) - Ahead(n, s, s.buf[i].sn)
      {
        CompareAhead(n, s, w, sn, i);
      }
      if Diff(n, sn, s.buf[0].sn) >= 0 {
        TailOrdered(n, s, w);
        FastackEarlyStop(n, Tail(s), w, sn, ts);
        forall i | 0 < i < |s.buf|
          ensures CountSkips(n, s.buf, sn, ts)[i]
                  == if Diff(n, sn, s.buf[i].sn) < 0 then s.buf[i] else Skipped(s.buf[i], sn, ts)
        {
          assert s.buf[i] == Tail(s).buf[i - 1];
          assert CountSkips(n, s.buf, sn, ts)[i] == CountSkips(n, Tail(s).buf, sn, ts)[i - 1];
        }
      }
    }
  }

  /** And of those, the older ones that were sent no later are counted once more; nothing else changes. */
  lemma SkipsExactly(n: Numbering, s: Sender, w: int, sn: int, ts: int)
    requires Ordered(n, s, w) && Storable(n, sn) && InFlight(n, s, sn)
    ensures forall i :: 0 <= i < |s.buf| ==>
      var seg := s.buf[i];
      CountSkips(n, s.buf, sn, ts)[i]
      == seg.(fastack := seg.fastack + if Diff(n, sn, seg.sn) > 0 && Itimediff(ts, seg.ts) >= 0 then 1 else 0)
  {
    FastackEarlyStop(n, s, w, sn, ts);
    forall i | 0 <= i < |s.buf|
      ensures Diff(n, sn, s.buf[i].sn) == 0 <==> sn == s.buf[i].sn
    {
      DiffZero(n, sn, s.buf[i].sn);
    }
  }

  // ---------------------------------------------------------------- what every operation keeps

  /** Recomputing una after removals: it never moves back, and the window only shrinks. */
  lemma ShrinkKeeps(n: Numbering, s: Sender, w: int)
    requires Ordered(n, s, w)
    ensures SendOk(n, Shrink(s), w)
    ensures 0 <= Diff(n, Shrink(s).una, s.una) <= Span(n, s)
    ensures Span(n, Shrink(s)) == Span(n, s) - Diff(n, Shrink(s).una, s.una)
  {
    var t := Shrink(s);
    Rebase(n, t.una, s.una, s.nxt);
    DiffZero(n, t.una, t.una);
    forall i | 0 <= i < |s.buf|
      ensures Diff(n, s.buf[i].sn, t.una) == Ahead(n, s, s.buf[i].sn) - Diff(n, t.una, s.una)
    {
      Rebase(n, t.una, s.una, s.buf[i].sn);
    }
  }

  lemma SuffixOrdered(n: Numbering, s: Sender, w: int, k: nat)
    requires Ordered(n, s, w) && k <= |s.buf|
    ensures Ordered(n, s.(buf := s.buf[k..]), w)
  {
    forall i | 0 <= i < |s.buf[k..]|
      ensures s.buf[k..][i] == s.buf[i + k]
    {
    }
  }

  /** Where a removal scan ends up: the buffer less at most one segment. */
  lemma {:induction false} RemoveAckedShape(n: Numbering, buf: seq<Segment>, sn: int) returns (k: nat)
    ensures RemoveAcked(n, buf, sn) == buf || (k < |buf| && RemoveAcked(n, buf, sn) == buf[..k] + buf[k + 1..])
  {
    k := 0;
    if buf != [] {
      if sn == buf[0].sn {
        assert buf[1..] == buf[..0] + buf[1..];
      } else if Diff(n, sn, buf[0].sn) >= 0 {
        var k' := RemoveAckedShape(n, buf[1..], sn);
        k := k' + 1;
        OneLess(buf, RemoveAcked(n, buf[1..], sn), k');
      }
    }
  }

  lemma OneLess(buf: seq<Segment>, rest: seq<Segment>, k: nat)
    requires buf != []
    requires rest == buf[1..] || (k < |buf| - 1 && rest == buf[1..][..k] + buf[1..][k + 1..])
    ensures var all := [buf[0]] + rest; all == buf || (k + 1 < |buf| && all == buf[..k + 1] + buf[k + 2..])
  {
    if rest == buf[1..] {
      assert [buf[0]] + rest == buf;
    } else {
      assert [buf[0]] + buf[1..][..k] == buf[..k + 1] && buf[1..][k + 1..] == buf[k + 2..];
    }
  }

  lemma ParseAckOrdered(n: Numbering, s: Sender, w: int, sn: int)
    requires Ordered(n, s, w)
    ensures Ordered(n, ParseAck(n, s, sn), w)
  {
    var k := RemoveAckedShape(n, s.buf, sn);
    if InFlight(n, s, sn) && RemoveAcked(n, s.buf, sn) != s.buf {
      var b := s.buf[..k] + s.buf[k + 1..];
      forall i | 0 <= i < |b|
        ensures b[i] == s.buf[if i < k then i else i + 1]
      {
      }
    }
  }

  /** Whatever arrives, the window invariant survives and una does not move back. */
  lemma AbsorbKeepsSendOk(n: Numbering, s: Sender, w: int, wire: Wire)
    requires SendOk(n, s, w)
    ensures SendOk(n, SenderAbsorb(n, s, wire), w)
    ensures 0 <= Diff(n, SenderAbsorb(n, s, wire).una, s.una)
    ensures Span(n, SenderAbsorb(n, s, wire)) == Span(n, s) - Diff(n, SenderAbsorb(n, s, wire).una, s.una)
  {
    var s0 := ParseUna(n, s, wire.una);
    SuffixOrdered(n, s, w, Covered(n, s.buf, wire.una));
    ShrinkKeeps(n, s0, w);
    var s1 := Shrink(s0);
    if wire.cmd == CMD_ACK {
      ParseAckOrdered(n, s1, w, wire.sn);
      var s2 := ParseAck(n, s1, wire.sn);
      ShrinkKeeps(n, s2, w);
      DiffChain(n, Shrink(s2).una, s1.una, s.una);
    }
  }

  /** A number in the buffer is in flight, so a scan for a number that is not removes nothing it should. */
  lemma ParseAckExactly(n: Numbering, s: Sender, w: int, sn: int)
    requires Ordered(n, s, w) && Storable(n, sn)
    ensures ParseAck(n, s, sn).buf == Without(s.buf, sn)
  {
    if InFlight(n, s, sn) {
      AckEarlyStop(n, s, w, sn);
    } else {
      forall i | 0 <= i < |s.buf|
        ensures s.buf[i].sn != sn
      {
        DiffSwap(n, s.nxt, s.una);
        DiffChain(n, s.buf[i].sn, s.una, s.nxt);
      }
      AbsentAll(s.buf, sn);
    }
  }

  /**
   What an arriving packet releases: whatever its command, the segments its una is past, and of an acknowledgement
   also the one it names; every other segment stays.
   */
  lemma ReleasesExactly(n: Numbering, s: Sender, w: int, wire: Wire)
    requires SendOk(n, s, w) && Storable(n, wire.sn) && !Straddles(n, s.buf, wire.una)
    ensures forall seg :: seg in SenderAbsorb(n, s, wire).buf <==>
      && seg in s.buf
      && Diff(n, wire.una, seg.sn) <= 0
      && !(wire.cmd == CMD_ACK && seg.sn == wire.sn)
  {
    var s0 := ParseUna(n, s, wire.una);
    UnaEarlyStop(n, s, w, wire.una);
    UncoveredMembers(n, s.buf, wire.una);
    if wire.cmd == CMD_ACK {
      SuffixOrdered(n, s, w, Covered(n, s.buf, wire.una));
      ShrinkKeeps(n, s0, w);
      ParseAckExactly(n, Shrink(s0), w, wire.sn);
      WithoutMembers(s0.buf, wire.sn);
    }
  }

  lemma {:induction false} AbsorbAllKeepsSendOk(n: Numbering, e: Endpoint, w: int, ws: seq<Wire>)
    requires SendOk(n, e.s, w)
    ensures SendOk(n, AbsorbAll(n, e, ws).s, w)
    ensures 0 <= Diff(n, AbsorbAll(n, e, ws).s.una, e.s.una)
    ensures Span(n, AbsorbAll(n, e, ws).s) == Span(n, e.s) - Diff(n, AbsorbAll(n, e, ws).s.una, e.s.una)
    decreases |ws|
  {
    if ws == [] {
      DiffZero(n, e.s.una, e.s.una);
    } else {
      var e1 := Absorb(n, e, ws[0]);
      AbsorbKeepsSendOk(n, e.s, w, ws[0]);
      AbsorbAllKeepsSendOk(n, e1, w, ws[1..]);
      DiffChain(n, AbsorbAll(n, e, ws).s.una, e1.s.una, e.s.una);
    }
  }

  /** The same segments in the same places, whatever else changed in them. */
  predicate SameContents(a: seq<Segment>, b: seq<Segment>) {
    |a| == |b| && forall i :: 0 <= i < |a| ==>
      a[i].sn == b[i].sn && a[i].Content() == b[i].Content() && a[i].cmd == b[i].cmd && a[i].conv == b[i].conv
  }

  lemma SameContentsKeeps(n: Numbering, s: Sender, w: int, buf: seq<Segment>)
    requires SendOk(n, s, w) && SameContents(s.buf, buf)
    ensures SendOk(n, s.(buf := buf), w)
  {
  }

  lemma {:induction false} CountSkipsSame(n: Numbering, buf: seq<Segment>, sn: int, ts: int)
    ensures SameContents(buf, CountSkips(n, buf, sn, ts))
  {
    if buf != [] && Diff(n, sn, buf[0].sn) >= 0 {
      CountSkipsSame(n, buf[1..], sn, ts);
      var b := CountSkips(n, buf, sn, ts);
      forall i | 0 < i < |buf|
        ensures b[i] == CountSkips(n, buf[1..], sn, ts)[i - 1] && buf[i] == buf[1..][i - 1]
      {
      }
    }
  }

  /** `input` keeps the send window invariant and never moves una back. */
  lemma InputKeepsSendOk(n: Numbering, e: Endpoint, w: int, ws: seq<Wire>)
    requires e.Mss() > 0 && SendOk(n, e.s, w)
    ensures SendOk(n, Input(n, e, ws).s, w)
    ensures 0 <= Diff(n, Input(n, e, ws).s.una, e.s.una)
  {
    AbsorbAllKeepsSendOk(n, e, w, ws);
    var m := MarkAll(n, NoAck, ws);
    if m.Newest? {
      var s := AbsorbAll(n, e, ws).s;
      CountSkipsSame(n, s.buf, m.sn, m.ts);
      SameContentsKeeps(n, s, w, CountSkips(n, s.buf, m.sn, m.ts));
    }
  }

  lemma AdmitOneKeeps(n: Numbering, s: Sender, w: int, st: Stamp, rto: int)
    requires SendOk(n, s, w) && Span(n, s) < w && s.queue != []
    ensures SendOk(n, s.(queue := s.queue[1..], nxt := Norm(n, s.nxt + 1),
                         buf := s.buf + [Numbered(s.queue[0], st, s.nxt, rto)]), w)
  {
    var seg := Numbered(s.queue[0], st, s.nxt, rto);
    var buf := s.buf + [seg];
    DiffPlus(n, s.nxt, s.una, 1);
    NormHolds(n, s.nxt + 1);
    forall i | 0 <= i < |buf|
      ensures buf[i] == if i < |s.buf| then s.buf[i] else seg
    {
    }
  }

  /** Numbering new segments fills the window and no more. */
  lemma {:induction false} AdmitKeeps(n: Numbering, s: Sender, w: int, st: Stamp, window: int, rto: int)
    requires SendOk(n, s, w) && -HALF / 2 <= window <= w
    ensures SendOk(n, Admit(n, s, st, window, rto), w)
    ensures Admit(n, s, st, window, rto).una == s.una
    decreases |s.queue|
  {
    DiffMinus(n, s.nxt, s.una, window);
    if Diff(n, s.nxt, Norm(n, s.una + window)) < 0 && s.queue != [] {
      var seg := Numbered(s.queue[0], st, s.nxt, rto);
      var s' := s.(queue := s.queue[1..], nxt := Norm(n, s.nxt + 1), buf := s.buf + [seg]);
      AdmitOneKeeps(n, s, w, st, rto);
      AdmitKeeps(n, s', w, st, window, rto);
    }
  }

  lemma ProbesKeepWindow(c: Control)
    ensures SendWindow(ProbeTimer(c)) == SendWindow(c)
  {
  }

  /** `flush` keeps the send window invariant: at most w numbers are ever in use. */
  lemma FlushKeepsSendOk(n: Numbering, e: Endpoint, w: int)
    requires SendOk(n, e.s, w) && -HALF / 2 <= SendWindow(e.c) <= w
    ensures SendOk(n, Flushed(n, e).s, w)
    ensures Flushed(n, e).s.una == e.s.una
  {
    var s := Admitted(n, e);
    AdmitKeeps(n, e.s, w, StampOf(e), SendWindow(e.c), e.c.rto);
    ProbesKeepWindow(e.c);
    SameContentsKeeps(n, s, w, TransmitAll(e.c, StampOf(e), s.buf));
  }

  // ---------------------------------------------------------------- the newest acknowledgement

  /** The acknowledged numbers lie within half a cycle of each other, counted from some base. */
  predicate Clustered(n: Numbering, base: int, ws: seq<Wire>) {
    forall w <- ws :: w.cmd == CMD_ACK ==> 0 <= Diff(n, w.sn, base) < HALF
  }

  /** Seen from the base, the wrapping comparison of two such numbers is the true one. */
  lemma CompareClustered(n: Numbering, base: int, a: int, b: int)
    requires 0 <= Diff(n, a, base) < HALF && 0 <= Diff(n, b, base) < HALF
    ensures Diff(n, a, b) == Diff(n, a, base) - Diff(n, b, base)
  {
    DiffSwap(n, b, base);
    DiffChain(n, a, base, b);
  }

  /**
   Among a datagram's acknowledgements `input` remembers the newest number, with the time of one that carried it: in
   either numbering, when the numbers lie within half a cycle of each other.
   */
  lemma {:induction false} MarkIsNewest(n: Numbering, base: int, m: Mark, ws: seq<Wire>)
    requires Clustered(n, base, ws) && (m.Newest? ==> 0 <= Diff(n, m.sn, base) < HALF)
    ensures var m' := MarkAll(n, m, ws);
            && (m'.NoAck? <==> m.NoAck? && forall w <- ws :: w.cmd != CMD_ACK)
            && (m'.Newest? ==>
                  && 0 <= Diff(n, m'.sn, base) < HALF
                  && (m.Newest? ==> Diff(n, m.sn, m'.sn) <= 0)
                  && (forall w <- ws :: w.cmd == CMD_ACK ==> Diff(n, w.sn, m'.sn) <= 0)
                  && (m' == m || exists w <- ws :: w.cmd == CMD_ACK && w.sn == m'.sn && w.ts == m'.ts))
    decreases |ws|
  {
    if ws != [] {
      var m1 := MarkAbsorb(n, m, ws[0]);
      assert ws[0] in ws;
      MarkOne(n, base, m, ws[0]);
      MarkIsNewest(n, base, m1, ws[1..]);
      var m' := MarkAll(n, m, ws);
      if m'.Newest? && m.Newest? {
        CompareClustered(n, base, m.sn, m1.sn);
        CompareClustered(n, base, m1.sn, m'.sn);
        CompareClustered(n, base, m.sn, m'.sn);
      }
      forall w <- ws | w.cmd == CMD_ACK && m'.Newest?
        ensures Diff(n, w.sn, m'.sn) <= 0
      {
        if w == ws[0] {
          CompareClustered(n, base, w.sn, m1.sn);
          CompareClustered(n, base, m1.sn, m'.sn);
          CompareClustered(n, base, w.sn, m'.sn);
        }
      }
    }
  }

  /** Of several with that number, with the time of the first: nothing that is not newer takes its place. */
  lemma {:induction false} MarkStays(n: Numbering, m: Mark, ws: seq<Wire>)
    requires m.Newest? && forall w <- ws :: w.cmd == CMD_ACK ==> Diff(n, w.sn, m.sn) <= 0
    ensures MarkAll(n, m, ws) == m
    decreases |ws|
  {
    if ws != [] {
      assert ws[0] in ws;
      MarkStays(n, m, ws[1..]);
    }
  }

  lemma MarkOne(n: Numbering, base: int, m: Mark, w: Wire)
    requires w.cmd == CMD_ACK ==> 0 <= Diff(n, w.sn, base) < HALF
    requires m.Newest? ==> 0 <= Diff(n, m.sn, base) < HALF
    ensures var m1 := MarkAbsorb(n, m, w);
            && (w.cmd == CMD_ACK ==> m1.Newest? && Diff(n, w.sn, m1.sn) <= 0)
            && (m.Newest? ==> m1.Newest? && Diff(n, m.sn, m1.sn) <= 0)
  {
    if w.cmd == CMD_ACK {
      CompareClustered(n, base, w.sn, w.sn);
      if m.Newest? {
        CompareClustered(n, base, w.sn, m.sn);
        CompareClustered(n, base, m.sn, w.sn);
      }
    }
    if m.Newest? {
      CompareClustered(n, base, m.sn, m.sn);
    }
  }
}
