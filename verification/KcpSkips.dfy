/** Acknowledgements that pass a segment by. */
module KcpSkips {
  // How often a waiting segment has been passed, over any calls, and that it is sent again before its time exactly when
  // that is often enough (tuya_p2p/_kcp_python.py:410-417, 541-545).

  import opened Bytes
  import opened Serial
  import opened KcpModel
  import opened KcpWire
  import opened KcpReceive
  import opened KcpSend
  import opened KcpSystem
  import opened KcpPacking
  import opened KcpInvariant
  import opened KcpTiming
  import opened KcpFlush
  import opened KcpCalls

  /** The newest acknowledgement of a datagram is in flight, newer than the segment, and of a packet sent no earlier. */
  predicate Passes(s: Sender, m: Mark, seg: Segment) {
    && m.Newest?
    && Diff(Wrapping, m.sn, s.una) >= 0 && Diff(Wrapping, m.sn, s.nxt) < 0
    && Diff(Wrapping, m.sn, seg.sn) > 0 && Itimediff(m.ts, seg.ts) >= 0
  }

  /** The sender once it has processed the acknowledgements of a datagram, and the newest of them. */
  function Acked(e: Endpoint, packet: Bytes): Sender { AbsorbAll(Wrapping, e, Parse(e.conv, packet).wires).s }

  function NewestIn(e: Endpoint, packet: Bytes): Mark { MarkAll(Wrapping, NoAck, Parse(e.conv, packet).wires) }

  /** The segment is passed by this call: a whole datagram with such an acknowledgement. */
  predicate PassedBy(e: Endpoint, call: Call, seg: Segment) {
    && call.CallInput? && Parse(e.conv, call.packet).status == 0
    && Passes(Acked(e, call.packet), NewestIn(e, call.packet), seg)
  }

  lemma {:induction false} MarkInRange(m: Mark, ws: seq<Wire>)
    requires (m.Newest? ==> 0 <= m.sn < M32) && forall w <- ws :: 0 <= w.sn < M32
    ensures var m' := MarkAll(Wrapping, m, ws); m'.Newest? ==> 0 <= m'.sn < M32
    decreases |ws|
  {
    if ws != [] {
      MarkInRange(MarkAbsorb(Wrapping, m, ws[0]), ws[1..]);
    }
  }

  /** What one datagram does to the count of a segment that it leaves in the buffer. */
  predicate Counted(seg: Segment, seg': Segment, passed: bool) {
    seg' == seg.(fastack := seg.fastack + if passed then 1 else 0)
  }

  lemma SettleCounts(e: Endpoint, oldUna: int, m: Mark, seg': Segment) returns (seg: Segment)
    requires e.Mss() > 0 && SendOk(Wrapping, e.s, WIDEST) && (m.Newest? ==> 0 <= m.sn < M32)
    requires seg' in Settle(Wrapping, e, oldUna, m).s.buf
    ensures seg in e.s.buf && Counted(seg, seg', Passes(e.s, m, seg))
  {
    var after := Settle(Wrapping, e, oldUna, m).s.buf;
    var i :| 0 <= i < |after| && after[i] == seg';
    seg := e.s.buf[i];
    if m.Newest? && InFlight(Wrapping, e.s, m.sn) {
      SkipsExactly(Wrapping, e.s, WIDEST, m.sn, m.ts);
    }
  }

  lemma WideOk(e: Endpoint)
    requires EndpointOk(e)
    ensures SendOk(Wrapping, e.s, WIDEST)
  {
  }

  lemma InputCounts(e: Endpoint, packet: Bytes, seg': Segment) returns (seg: Segment)
    requires EndpointOk(e) && seg' in InputPacket(e, packet).0.s.buf
    ensures seg in e.s.buf && Counted(seg, seg', PassedBy(e, CallInput(packet), seg))
  {
    var p := Parse(e.conv, packet);
    var e1 := AbsorbAll(Wrapping, e, p.wires);
    AbsorbAllKept(e, p.wires);
    seg := seg';
    if p.status == 0 {
      WideOk(e);
      AbsorbAllKeepsSendOk(Wrapping, e, WIDEST, p.wires);
      if |packet| >= OVERHEAD {
        ParsedInRange(e.conv, packet, 0);
      }
      MarkInRange(NoAck, p.wires);
      seg := SettleCounts(e1, e.s.una, MarkAll(Wrapping, NoAck, p.wires), seg');
    }
  }

  lemma OneOf(e: Endpoint, a: Segment, b: Segment)
    requires EndpointOk(e) && a in e.s.buf && b in e.s.buf && a.sn == b.sn
    ensures a == b
  {
    var i :| 0 <= i < |e.s.buf| && e.s.buf[i] == a;
    var j :| 0 <= j < |e.s.buf| && e.s.buf[j] == b;
    Distinct(e.s, Widest(e.c), i, j);
  }

  lemma QuietCounts(e: Endpoint, call: Call, seg: Segment, seg': Segment)
    requires EndpointOk(e) && Flushing(e, call).None? && seg in e.s.buf
    requires seg' in Step(e, call).s.buf && seg'.sn == seg.sn
    ensures Counted(seg, seg', PassedBy(e, call, seg))
  {
    if call.CallInput? {
      var from := InputCounts(e, call.packet, seg');
      OneOf(e, seg, from);
    } else {
      assert Step(e, call).s.buf == e.s.buf;
      OneOf(e, seg, seg');
    }
  }

  /** How often calls pass a segment by. */
  function PassesOf(e: Endpoint, calls: seq<Call>, seg: Segment): nat
    requires e.Mss() > 0
    decreases |calls|
  {
    if calls == [] then 0
    else (if PassedBy(e, calls[0], seg) then 1 else 0) + PassesOf(Step(e, calls[0]), calls[1..], seg)
  }

  /** None of the calls flushes or takes the segment with this number away. */
  predicate Waiting(e: Endpoint, calls: seq<Call>, sn: int)
    requires e.Mss() > 0
    decreases |calls|
  {
    calls == [] || (
      && Flushing(e, calls[0]).None? && sn in Sns(Step(e, calls[0]).s.buf)
      && Waiting(Step(e, calls[0]), calls[1..], sn))
  }

  lemma SamePasses(e: Endpoint, calls: seq<Call>, a: Segment, b: Segment)
    requires e.Mss() > 0 && a.sn == b.sn && a.ts == b.ts
    ensures PassesOf(e, calls, a) == PassesOf(e, calls, b)
    decreases |calls|
  {
    if calls != [] {
      SamePasses(Step(e, calls[0]), calls[1..], a, b);
    }
  }

  function Bumped(seg: Segment, k: nat): Segment { seg.(fastack := seg.fastack + k) }

  lemma QuietOne(e: Endpoint, call: Call, seg: Segment) returns (seg1: Segment)
    requires EndpointOk(e) && Flushing(e, call).None? && seg in e.s.buf && seg.sn in Sns(Step(e, call).s.buf)
    ensures seg1 == Bumped(seg, if PassedBy(e, call, seg) then 1 else 0) && seg1 in Step(e, call).s.buf
  {
    seg1 :| seg1 in Step(e, call).s.buf && seg1.sn == seg.sn;
    QuietCounts(e, call, seg, seg1);
  }

  /** Between flushes a segment changes only in its count, which says how often it has been passed. */
  lemma {:induction false} CountsPasses(e: Endpoint, calls: seq<Call>, seg: Segment)
    requires EndpointOk(e) && seg in e.s.buf && Waiting(e, calls, seg.sn)
    ensures Bumped(seg, PassesOf(e, calls, seg)) in Steps(e, calls).s.buf
    decreases |calls|
  {
    if calls == [] {
      assert Bumped(seg, 0) == seg;
    } else {
      var e1 := Step(e, calls[0]);
      var seg1 := QuietOne(e, calls[0], seg);
      StepKeepsOk(e, calls[0]);
      CountsPasses(e1, calls[1..], seg1);
      SamePasses(e1, calls[1..], seg1, seg);
      BumpedTwice(seg, if PassedBy(e, calls[0], seg) then 1 else 0, PassesOf(e1, calls[1..], seg));
    }
  }

  lemma BumpedTwice(seg: Segment, a: nat, b: nat)
    ensures Bumped(Bumped(seg, a), b) == Bumped(seg, a + b)
  {
  }

  /**
   A segment that a flush has sent, and that is still unacknowledged and not due at a later flush, goes out with that
   flush exactly when `fastresend` acknowledgements have passed it in between, and its count then starts again.
   */
  lemma RunEarly(e: Endpoint, calls: seq<Call>, seg: Segment)
    requires EndpointOk(e) && seg in e.s.buf && seg.xmit != 0 && seg.fastack == 0 && Waiting(e, calls, seg.sn)
    requires var c := Steps(e, calls).c; c.fastresend > 0 && !RunOut(c, seg)
    ensures var e1, k := Steps(e, calls), PassesOf(e, calls, seg);
            && (GoesOut(Wrapping, e1, seg) <==> k >= e1.c.fastresend)
            && forall seg' <- Flushed(Wrapping, e1).s.buf :: seg'.sn == seg.sn ==>
                 seg'.fastack == if k >= e1.c.fastresend then 0 else k
  {
    var e1, k := Steps(e, calls), PassesOf(e, calls, seg);
    var waiting := Bumped(seg, k);
    CountsPasses(e, calls, seg);
    StepsKeepOk(e, calls);
    EarlyNow(e1, waiting);
    SameOut(e1, seg, waiting);
  }

  lemma SameOut(e: Endpoint, a: Segment, b: Segment)
    requires a.sn == b.sn && a.Content() == b.Content()
    ensures GoesOut(Wrapping, e, a) == GoesOut(Wrapping, e, b)
  {
  }

  lemma EarlyNow(e: Endpoint, seg: Segment)
    requires EndpointOk(e) && seg in e.s.buf && seg.xmit != 0 && !RunOut(e.c, seg) && e.c.fastresend > 0
    ensures GoesOut(Wrapping, e, seg) <==> seg.fastack >= e.c.fastresend
    ensures forall seg' <- Flushed(Wrapping, e).s.buf :: seg'.sn == seg.sn ==>
              seg'.fastack == if seg.fastack >= e.c.fastresend then 0 else seg.fastack
  {
    AdmittedOrdered(e);
    var i :| 0 <= i < |e.s.buf| && e.s.buf[i] == seg;
    assert Admitted(Wrapping, e).buf[i] == seg;
    WideOk(e);
    GoesOutIff(Wrapping, e, i);
    FlushedAt(e, i);
  }
}
