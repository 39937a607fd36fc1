/**
 Wrapping changes nothing: an endpoint whose sequence numbers are cut to 32 bits does exactly what the endpoint with
 unbounded numbers does, as long as every number it compares is less than half a cycle away.
 */
module KcpWrap {
  import opened Serial
  import opened KcpModel
  import opened KcpReceive
  import opened KcpSend

  // ---------------------------------------------------------------- cutting a state to 32 bits

  function WrapSegment(seg: Segment): Segment {
    seg.(sn := U32(seg.sn), una := U32(seg.una))
  }

  function WrapSegments(segs: seq<Segment>): (w: seq<Segment>)
    ensures |w| == |segs| && forall i :: 0 <= i < |segs| ==> w[i] == WrapSegment(segs[i])
  {
    seq(|segs|, i requires 0 <= i < |segs| => WrapSegment(segs[i]))
  }

  function WrapAcks(acks: seq<(int, int)>): (w: seq<(int, int)>)
    ensures |w| == |acks| && forall i :: 0 <= i < |acks| ==> w[i] == (U32(acks[i].0), acks[i].1)
  {
    seq(|acks|, i requires 0 <= i < |acks| => (U32(acks[i].0), acks[i].1))
  }

  function WrapWire(w: Wire): Wire {
    w.(sn := U32(w.sn), una := U32(w.una))
  }

  function WrapWires(ws: seq<Wire>): (r: seq<Wire>)
    ensures |r| == |ws| && forall i :: 0 <= i < |ws| ==> r[i] == WrapWire(ws[i])
  {
    seq(|ws|, i requires 0 <= i < |ws| => WrapWire(ws[i]))
  }

  function WrapSender(s: Sender): Sender {
    Sender(U32(s.una), U32(s.nxt), WrapSegments(s.queue), WrapSegments(s.buf))
  }

  function WrapReceiver(r: Receiver): Receiver {
    Receiver(U32(r.nxt), r.wnd, WrapSegments(r.queue), WrapSegments(r.buf), WrapAcks(r.acks))
  }

  function WrapEndpoint(e: Endpoint): Endpoint {
    e.(s := WrapSender(e.s), r := WrapReceiver(e.r))
  }

  function WrapMark(m: Mark): Mark {
    match m
    case NoAck => NoAck
    case Newest(sn, ts) => Newest(U32(sn), ts)
  }

  // ---------------------------------------------------------------- comparisons

  predicate Near(a: int, b: int) {
    -HALF < a - b < HALF
  }

  lemma NearDiff(a: int, b: int)
    requires Near(a, b)
    ensures Diff(Wrapping, U32(a), U32(b)) == a - b
    ensures U32(a) == U32(b) <==> a == b
  {
    ItimediffExact(a, b);
    if U32(a) == U32(b) {
      SameResidue(a, b);
    }
  }

  lemma U32Plus(a: int, k: int)
    ensures U32(U32(a) + k) == U32(a + k)
  {
    ShiftResidue(U32(a) + k, a / M32);
  }

  // ---------------------------------------------------------------- the receiving half

  lemma {:induction false} WrapPromote(r: Receiver)
    requires Sorted(Unbounded, r) && r.wnd < HALF
    ensures Promote(Wrapping, WrapReceiver(r)) == WrapReceiver(Promote(Unbounded, r))
    decreases |r.buf|
  {
    var v := WrapReceiver(r);
    if r.buf != [] {
      NearDiff(r.buf[0].sn, r.nxt);
    }
    if Promotable(Unbounded, r) {
      var r' := PromoteHead(Unbounded, r);
      PromoteOne(Unbounded, r);
      U32Plus(r.nxt, 1);
      assert PromoteHead(Wrapping, v) == WrapReceiver(r');
      WrapPromote(r');
    }
  }

  lemma {:induction false} WrapScanBack(r: Receiver, k: nat, sn: int)
    requires Sorted(Unbounded, r) && r.wnd < HALF && k <= |r.buf|
    requires 0 <= sn - r.nxt < r.wnd
    ensures ScanBack(Wrapping, WrapSegments(r.buf)[..k], U32(sn)) == ScanBack(Unbounded, r.buf[..k], sn)
  {
    if k > 0 {
      assert r.buf[..k][..k - 1] == r.buf[..k - 1];
      assert WrapSegments(r.buf)[..k][..k - 1] == WrapSegments(r.buf)[..k - 1];
      NearDiff(sn, r.buf[k - 1].sn);
      WrapScanBack(r, k - 1, sn);
    }
  }

  lemma WrapInsert(r: Receiver, seg: Segment)
    requires Sorted(Unbounded, r) && r.wnd < HALF
    requires 0 <= seg.sn - r.nxt < r.wnd
    ensures Insert(Wrapping, WrapSegments(r.buf), WrapSegment(seg)) == WrapSegments(Insert(Unbounded, r.buf, seg))
  {
    var k := |r.buf|;
    assert r.buf[..k] == r.buf && WrapSegments(r.buf)[..k] == WrapSegments(r.buf);
    WrapScanBack(r, k, seg.sn);
  }

  /** The two window tests of the source agree in both numberings. */
  lemma WrapWindow(r: Receiver, sn: int)
    requires 0 <= sn - r.nxt < r.wnd < HALF
    ensures Diff(Wrapping, U32(sn), Norm(Wrapping, U32(r.nxt) + r.wnd)) < 0 <= Diff(Wrapping, U32(sn), U32(r.nxt))
  {
    NearDiff(sn, r.nxt);
    NearDiff(sn, r.nxt + r.wnd);
    U32Plus(r.nxt, r.wnd);
  }

  lemma PutSorted(r: Receiver, seg: Segment)
    requires Sorted(Unbounded, r) && 0 <= seg.sn - r.nxt < r.wnd
    ensures Sorted(Unbounded, r.(buf := Insert(Unbounded, r.buf, seg)))
  {
    assert Off(Unbounded, r, seg.sn) == seg.sn - r.nxt;
    InsertIsSorted(Unbounded, r, seg);
  }

  lemma WrapPut(r: Receiver, seg: Segment)
    requires Sorted(Unbounded, r) && r.wnd < HALF && 0 <= seg.sn - r.nxt < r.wnd
    ensures Promote(Wrapping, WrapReceiver(r).(buf := Insert(Wrapping, WrapSegments(r.buf), WrapSegment(seg))))
            == WrapReceiver(Promote(Unbounded, r.(buf := Insert(Unbounded, r.buf, seg))))
  {
    var put := r.(buf := Insert(Unbounded, r.buf, seg));
    PutSorted(r, seg);
    WrapInsert(r, seg);
    WrapPromote(put);
    assert WrapReceiver(put) == WrapReceiver(r).(buf := WrapSegments(put.buf));
  }

  lemma WrapParseData(r: Receiver, seg: Segment)
    requires Sorted(Unbounded, r) && r.wnd < HALF
    requires 0 <= seg.sn - r.nxt < r.wnd
    ensures ParseData(Wrapping, WrapReceiver(r), WrapSegment(seg)) == WrapReceiver(ParseData(Unbounded, r, seg))
  {
    WrapWindow(r, seg.sn);
    WrapPut(r, seg);
  }

  lemma WrapReceiverAbsorb(r: Receiver, w: Wire)
    requires RecvOk(Unbounded, r) && r.wnd < HALF
    requires w.cmd == CMD_PUSH ==> r.wnd - HALF < w.sn - r.nxt < HALF
    ensures ReceiverAbsorb(Wrapping, WrapReceiver(r), WrapWire(w)) == WrapReceiver(ReceiverAbsorb(Unbounded, r, w))
  {
    if w.cmd == CMD_PUSH {
      NearDiff(w.sn, r.nxt);
      NearDiff(w.sn, r.nxt + r.wnd);
      U32Plus(r.nxt, r.wnd);
      var noted := r.(acks := r.acks + [(w.sn, w.ts)]);
      var v := WrapReceiver(r);
      assert WrapReceiver(noted) == v.(acks := v.acks + [(U32(w.sn), w.ts)]);
      if r.nxt <= w.sn < r.nxt + r.wnd {
        assert Sorted(Unbounded, noted);
        assert Arrived(WrapWire(w)) == WrapSegment(Arrived(w));
        WrapParseData(noted, Arrived(w));
      }
    }
  }

  lemma {:induction false} WrapReassembly(q: seq<Segment>)
    ensures MessageSpan(WrapSegments(q)) == MessageSpan(q) && MessageData(WrapSegments(q)) == MessageData(q)
    ensures PeekSize(WrapSegments(q)) == PeekSize(q)
  {
    if q != [] {
      assert WrapSegments(q)[1..] == WrapSegments(q[1..]);
      WrapReassembly(q[1..]);
    }
  }

  lemma WrapRecv(r: Receiver)
    requires RecvOk(Unbounded, r) && r.wnd < HALF
    ensures Recv(Wrapping, WrapReceiver(r)).0 == WrapReceiver(Recv(Unbounded, r).0)
    ensures Recv(Wrapping, WrapReceiver(r)).1 == Recv(Unbounded, r).1
  {
    WrapReassembly(r.queue);
    if PeekSize(r.queue) >= 0 {
      var k := MessageSpan(r.queue);
      var taken := r.(queue := r.queue[k..]);
      assert Sorted(Unbounded, taken);
      WrapPromote(taken);
      assert WrapSegments(r.queue)[k..] == WrapSegments(taken.queue);
    }
  }

  // ---------------------------------------------------------------- the sending half

  /** A number close enough to every number the sender has in use. */
  predicate NearSender(s: Sender, x: int) {
    s.nxt - HALF < x < s.una + HALF
  }

  lemma {:induction false} WrapCovered(s: Sender, k: nat, una: int)
    requires Ordered(Unbounded, s, 0xFFFF) && k <= |s.buf| && NearSender(s, una)
    ensures Covered(Wrapping, WrapSegments(s.buf)[k..], U32(una)) == Covered(Unbounded, s.buf[k..], una)
    decreases |s.buf| - k
  {
    if k < |s.buf| {
      NearDiff(una, s.buf[k].sn);
      assert s.buf[k..][1..] == s.buf[k + 1..];
      assert WrapSegments(s.buf)[k..][1..] == WrapSegments(s.buf)[k + 1..];
      WrapCovered(s, k + 1, una);
    }
  }

  lemma WrapInFlight(s: Sender, sn: int)
    requires Ordered(Unbounded, s, 0xFFFF) && NearSender(s, sn)
    ensures InFlight(Wrapping, WrapSender(s), U32(sn)) <==> InFlight(Unbounded, s, sn)
  {
    NearDiff(sn, s.una);
    NearDiff(sn, s.nxt);
  }

  lemma {:induction false} WrapRemoveAcked(s: Sender, buf: seq<Segment>, sn: int)
    requires Ordered(Unbounded, s, 0xFFFF) && NearSender(s, sn)
    requires forall seg <- buf :: s.una <= seg.sn < s.nxt
    ensures RemoveAcked(Wrapping, WrapSegments(buf), U32(sn)) == WrapSegments(RemoveAcked(Unbounded, buf, sn))
  {
    if buf != [] {
      NearDiff(sn, buf[0].sn);
      assert WrapSegments(buf)[1..] == WrapSegments(buf[1..]);
      WrapRemoveAcked(s, buf[1..], sn);
    }
  }

  lemma {:induction false} WrapCountSkips(s: Sender, buf: seq<Segment>, sn: int, ts: int)
    requires Ordered(Unbounded, s, 0xFFFF) && NearSender(s, sn)
    requires forall seg <- buf :: s.una <= seg.sn < s.nxt
    ensures CountSkips(Wrapping, WrapSegments(buf), U32(sn), ts) == WrapSegments(CountSkips(Unbounded, buf, sn, ts))
  {
    if buf != [] {
      NearDiff(sn, buf[0].sn);
      assert WrapSegments(buf)[1..] == WrapSegments(buf[1..]);
      WrapCountSkips(s, buf[1..], sn, ts);
    }
  }

  lemma BufferInside(s: Sender)
    requires Ordered(Unbounded, s, 0xFFFF)
    ensures forall seg <- s.buf :: s.una <= seg.sn < s.nxt
  {
    forall seg <- s.buf
      ensures s.una <= seg.sn < s.nxt
    {
      var i :| 0 <= i < |s.buf| && s.buf[i] == seg;
      assert 0 <= Ahead(Unbounded, s, s.buf[i].sn) < Span(Unbounded, s);
    }
  }

  lemma WrapParseUna(s: Sender, una: int)
    requires Ordered(Unbounded, s, 0xFFFF) && NearSender(s, una)
    ensures Shrink(ParseUna(Wrapping, WrapSender(s), U32(una))) == WrapSender(Shrink(ParseUna(Unbounded, s, una)))
  {
    assert s.buf[0..] == s.buf && WrapSegments(s.buf)[0..] == WrapSegments(s.buf);
    WrapCovered(s, 0, una);
    var k := Covered(Unbounded, s.buf, una);
    assert WrapSegments(s.buf)[k..] == WrapSegments(s.buf[k..]);
  }

  lemma WrapParseAck(s: Sender, sn: int)
    requires Ordered(Unbounded, s, 0xFFFF) && NearSender(s, sn)
    ensures Shrink(ParseAck(Wrapping, WrapSender(s), U32(sn))) == WrapSender(Shrink(ParseAck(Unbounded, s, sn)))
  {
    WrapInFlight(s, sn);
    BufferInside(s);
    WrapRemoveAcked(s, s.buf, sn);
  }

  lemma WrapSenderAbsorb(s: Sender, w: Wire)
    requires SendOk(Unbounded, s, 0xFFFF)
    requires NearSender(s, w.una)
    requires w.cmd == CMD_ACK ==> NearSender(s, w.sn)
    ensures SenderAbsorb(Wrapping, WrapSender(s), WrapWire(w)) == WrapSender(SenderAbsorb(Unbounded, s, w))
  {
    WrapParseUna(s, w.una);
    if w.cmd == CMD_ACK {
      var s0 := ParseUna(Unbounded, s, w.una);
      SuffixOrdered(Unbounded, s, 0xFFFF, Covered(Unbounded, s.buf, w.una));
      ShrinkKeeps(Unbounded, s0, 0xFFFF);
      WrapParseAck(Shrink(s0), w.sn);
    }
  }

  lemma WrapParseFastack(s: Sender, sn: int, ts: int)
    requires Ordered(Unbounded, s, 0xFFFF) && NearSender(s, sn)
    ensures ParseFastack(Wrapping, WrapSender(s), U32(sn), ts) == WrapSender(ParseFastack(Unbounded, s, sn, ts))
  {
    WrapInFlight(s, sn);
    BufferInside(s);
    WrapCountSkips(s, s.buf, sn, ts);
  }

  lemma WrapMarkAbsorb(m: Mark, w: Wire)
    requires w.cmd == CMD_ACK && m.Newest? ==> Near(w.sn, m.sn)
    ensures MarkAbsorb(Wrapping, WrapMark(m), WrapWire(w)) == WrapMark(MarkAbsorb(Unbounded, m, w))
  {
    if w.cmd == CMD_ACK && m.Newest? {
      NearDiff(w.sn, m.sn);
    }
  }

  // ---------------------------------------------------------------- flush

  function WrapStamp(st: Stamp): Stamp {
    st.(una := U32(st.una))
  }

  lemma {:induction false} WrapAdmit(s: Sender, st: Stamp, window: int, rto: int)
    requires SendOk(Unbounded, s, 0xFFFF) && 0 <= window <= 0xFFFF
    ensures Admit(Wrapping, WrapSender(s), WrapStamp(st), window, rto)
            == WrapSender(Admit(Unbounded, s, st, window, rto))
    decreases |s.queue|
  {
    NearDiff(s.nxt, s.una + window);
    U32Plus(s.una, window);
    if s.nxt < s.una + window && s.queue != [] {
      var seg := Numbered(s.queue[0], st, s.nxt, rto);
      var s' := s.(queue := s.queue[1..], nxt := s.nxt + 1, buf := s.buf + [seg]);
      var v := WrapSender(s);
      U32Plus(s.nxt, 1);
      AdmitOneKeeps(Unbounded, s, 0xFFFF, st, rto);
      assert v.queue[1..] == WrapSegments(s'.queue);
      assert Numbered(v.queue[0], WrapStamp(st), v.nxt, rto) == WrapSegment(seg);
      assert v.buf + [WrapSegment(seg)] == WrapSegments(s'.buf);
      WrapAdmit(s', st, window, rto);
    }
  }

  lemma {:induction false} WrapOutgoing(c: Control, st: Stamp, buf: seq<Segment>)
    ensures Outgoing(c, WrapStamp(st), WrapSegments(buf)) == WrapSegments(Outgoing(c, st, buf))
    ensures forall why :: CountReason(c, WrapSegments(buf), why) == CountReason(c, buf, why)
  {
    if buf != [] {
      assert WrapSegments(buf)[1..] == WrapSegments(buf[1..]);
      WrapOutgoing(c, st, buf[1..]);
      assert Transmit(c, WrapStamp(st), WrapSegment(buf[0])) == WrapSegment(Transmit(c, st, buf[0]));
    }
  }

  lemma WrapTransmit(c: Control, st: Stamp, buf: seq<Segment>)
    ensures TransmitAll(c, WrapStamp(st), WrapSegments(buf)) == WrapSegments(TransmitAll(c, st, buf))
  {
  }

  lemma WrapSegmentsAppend(a: seq<Segment>, b: seq<Segment>)
    ensures WrapSegments(a + b) == WrapSegments(a) + WrapSegments(b)
  {
  }

  lemma WrapAdmitted(e: Endpoint)
    requires SendOk(Unbounded, e.s, 0xFFFF) && 0 <= SendWindow(e.c) <= 0xFFFF
    ensures Admitted(Wrapping, WrapEndpoint(e)) == WrapSender(Admitted(Unbounded, e))
    ensures StampOf(WrapEndpoint(e)) == WrapStamp(StampOf(e))
  {
    WrapAdmit(e.s, StampOf(e), SendWindow(ProbeTimer(e.c)), e.c.rto);
  }

  lemma WrapEmitted(e: Endpoint)
    requires SendOk(Unbounded, e.s, 0xFFFF) && 0 <= SendWindow(e.c) <= 0xFFFF
    ensures Emitted(Wrapping, WrapEndpoint(e)) == WrapSegments(Emitted(Unbounded, e))
  {
    var st, c := StampOf(e), ProbeTimer(e.c);
    var out := Outgoing(e.c, st, Admitted(Unbounded, e).buf);
    WrapAdmitted(e);
    WrapOutgoing(e.c, st, Admitted(Unbounded, e).buf);
    assert AckSegments(WrapStamp(st), WrapAcks(e.r.acks)) == WrapSegments(AckSegments(st, e.r.acks));
    assert ProbeSegments(WrapStamp(st), c) == WrapSegments(ProbeSegments(st, c));
    WrapSegmentsAppend(AckSegments(st, e.r.acks), ProbeSegments(st, c));
    WrapSegmentsAppend(AckSegments(st, e.r.acks) + ProbeSegments(st, c), out);
  }

  lemma WrapReact(c: Control, s: Sender, mss: int, window: int, fast: nat, lost: nat)
    requires SendOk(Unbounded, s, 0xFFFF)
    ensures React(Wrapping, c, WrapSender(s), mss, window, fast, lost)
            == React(Unbounded, c, s, mss, window, fast, lost)
  {
    WrapInflight(s.nxt, s.una);
  }

  lemma WrapFlushed(e: Endpoint)
    requires SendOk(Unbounded, e.s, 0xFFFF) && 0 <= SendWindow(e.c) <= 0xFFFF
    ensures Flushed(Wrapping, WrapEndpoint(e)) == WrapEndpoint(Flushed(Unbounded, e))
  {
    var s := Admitted(Unbounded, e);
    var f := Flushed(Unbounded, e);
    var c := ProbeTimer(e.c).(askSend := false, askTell := false);
    WrapAdmitted(e);
    WrapOutgoing(e.c, StampOf(e), s.buf);
    WrapTransmit(e.c, StampOf(e), s.buf);
    FlushKeepsSendOk(Unbounded, e, 0xFFFF);
    WrapReact(c, f.s, e.Mss(), SendWindow(c), CountReason(e.c, s.buf, Fast), CountReason(e.c, s.buf, Timeout));
    assert WrapReceiver(f.r) == WrapReceiver(e.r).(acks := []);
  }

  lemma WrapInflight(nxt: int, una: int)
    requires 0 <= nxt - una < M32
    ensures U32(U32(nxt) - U32(una)) == nxt - una
  {
    ItimediffExact(nxt, una);
    ShiftResidue(U32(nxt) - U32(una), nxt / M32 - una / M32);
  }

  // ---------------------------------------------------------------- datagrams

  lemma WrapOnWire(segs: seq<Segment>)
    ensures OnWireAll(Wrapping, WrapSegments(segs)) == WrapWires(OnWireAll(Unbounded, segs))
  {
    forall i | 0 <= i < |segs|
      ensures OnWire(Wrapping, WrapSegment(segs[i])) == WrapWire(OnWire(Unbounded, segs[i]))
    {
      U32Plus(segs[i].sn, 0);
      U32Plus(segs[i].una, 0);
    }
  }

  function WrapDatagrams(ds: seq<seq<Wire>>): (r: seq<seq<Wire>>)
    ensures |r| == |ds| && forall i :: 0 <= i < |ds| ==> r[i] == WrapWires(ds[i])
  {
    seq(|ds|, i requires 0 <= i < |ds| => WrapWires(ds[i]))
  }

  lemma {:induction false} WrapTotalSize(ws: seq<Wire>)
    ensures TotalSize(WrapWires(ws)) == TotalSize(ws)
  {
    if ws != [] {
      assert WrapWires(ws)[1..] == WrapWires(ws[1..]);
      WrapTotalSize(ws[1..]);
    }
  }

  function WrapPacking(p: Packing): Packing {
    Packing(WrapDatagrams(p.done), WrapWires(p.open))
  }

  lemma {:induction false} WrapEmitAll(mtu: int, ws: seq<Wire>)
    ensures EmitAll(mtu, Packing([], []), WrapWires(ws)) == WrapPacking(EmitAll(mtu, Packing([], []), ws))
    decreases |ws|
  {
    if ws != [] {
      var k := |ws| - 1;
      assert WrapWires(ws)[..k] == WrapWires(ws[..k]);
      WrapEmitAll(mtu, ws[..k]);
      var p := EmitAll(mtu, Packing([], []), ws[..k]);
      WrapTotalSize(p.open);
      assert WrapDatagrams(p.done + [p.open]) == WrapDatagrams(p.done) + [WrapWires(p.open)];
      assert WrapWires(p.open + [ws[k]]) == WrapWires(p.open) + [WrapWire(ws[k])];
      assert WrapWires([ws[k]]) == [WrapWire(ws[k])];
    }
  }

  /** The wrapping endpoint sends the datagrams of the unbounded one, cut to 32 bits. */
  lemma WrapFlushDatagrams(e: Endpoint)
    requires SendOk(Unbounded, e.s, 0xFFFF) && 0 <= SendWindow(e.c) <= 0xFFFF
    ensures Datagrams(Wrapping, WrapEndpoint(e)) == WrapDatagrams(Datagrams(Unbounded, e))
  {
    WrapEmitted(e);
    var ws := OnWireAll(Unbounded, Emitted(Unbounded, e));
    WrapOnWire(Emitted(Unbounded, e));
    WrapEmitAll(e.mtu, ws);
    var p := EmitAll(e.mtu, Packing([], []), ws);
    assert WrapDatagrams(p.done + [p.open]) == WrapDatagrams(p.done) + [WrapWires(p.open)];
  }
}
