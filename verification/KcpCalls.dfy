/** One endpoint under any calls. */
module KcpCalls {
  // What the class's public calls, with any bytes for input, keep over whole runs: the invariant, the send window, and
  // the direction of snd_una; and how often one segment can time out in such a run (tuya_p2p/_kcp_python.py:387-417,
  // 498-545).

  import opened Bytes
  import opened Serial
  import opened KcpModel
  import opened KcpWire
  import opened KcpReceive
  import opened KcpSend
  import opened KcpSystem
  import opened KcpPacking
  import opened KcpInvariant
  import opened KcpTiming

  datatype Call =
    | CallSend(data: Bytes)
    | CallRecv
    | CallFlush
    | CallUpdate(now: int)
    | CallTune(nodelay: int, interval: int, resend: int, nc: int)
    | CallInput(packet: Bytes)

  /** The endpoint as a call's flush finds it, if the call flushes. */
  function Flushing(e: Endpoint, call: Call): Option<Endpoint> {
    match call
    case CallFlush => Some(e)
    case CallUpdate(now) => if Tick(e.c, now).1 then Some(e.(c := Tick(e.c, now).0)) else None
    case _ => None
  }

  /** What a call makes of the endpoint. */
  function Step(e: Endpoint, call: Call): (e': Endpoint)
    requires e.Mss() > 0
    ensures e'.mtu == e.mtu
  {
    match call
    case CallSend(data) => Send(e, data)
    case CallRecv => e.(r := Recv(Wrapping, e.r).0)
    case CallFlush => Flushed(Wrapping, e)
    case CallUpdate(now) =>
      var (c, due) := Tick(e.c, now);
      if due then Flushed(Wrapping, e.(c := c)) else e.(c := c)
    case CallTune(nodelay, interval, resend, nc) => e.(c := SetNodelay(e.c, nodelay, interval, resend, nc))
    case CallInput(packet) => InputPacket(e, packet).0
  }

  function Steps(e: Endpoint, calls: seq<Call>): (e': Endpoint)
    requires e.Mss() > 0
    ensures e'.mtu == e.mtu
    decreases |calls|
  {
    if calls == [] then e else Steps(Step(e, calls[0]), calls[1..])
  }

  lemma RecvKeepsOk(e: Endpoint)
    requires EndpointOk(e)
    ensures EndpointOk(e.(r := Recv(Wrapping, e.r).0))
  {
    RecvKeepsRecvOk(Wrapping, e.r);
  }

  lemma SameUna(s: Sender)
    ensures Diff(Wrapping, s.una, s.una) == 0
  {
    ItimediffExact(s.una, s.una);
  }

  /** Every call keeps the invariant, and none moves una back. */
  lemma StepKeepsOk(e: Endpoint, call: Call)
    requires EndpointOk(e)
    ensures EndpointOk(Step(e, call)) && 0 <= Diff(Wrapping, Step(e, call).s.una, e.s.una)
  {
    SameUna(e.s);
    match call
    case CallSend(data) => SendKeepsOk(e, data);
    case CallRecv => RecvKeepsOk(e);
    case CallFlush => FlushKeepsOk(e);
    case CallUpdate(now) =>
      TickKeepsOk(e, now);
      FlushKeepsOk(e.(c := Tick(e.c, now).0));
    case CallTune(nodelay, interval, resend, nc) => TuneKeepsOk(e, nodelay, interval, resend, nc);
    case CallInput(packet) => InputPacketKeepsOk(e, packet);
  }

  lemma StepKeepsSndWnd(e: Endpoint, call: Call)
    requires e.Mss() > 0
    ensures Step(e, call).c.sndWnd == e.c.sndWnd
  {
    match call
    case CallFlush => FlushKeepsSndWnd(e);
    case CallUpdate(now) => FlushKeepsSndWnd(e.(c := Tick(e.c, now).0));
    case CallInput(packet) => InputKeepsSndWnd(e, packet);
    case _ =>
  }

  lemma InputKeepsSndWnd(e: Endpoint, packet: Bytes)
    requires e.Mss() > 0
    ensures InputPacket(e, packet).0.c.sndWnd == e.c.sndWnd
  {
    AbsorbAllKeepsSndWnd(e, Parse(e.conv, packet).wires);
  }

  /** How far una has moved over some calls, counted without wrapping. */
  function Advance(e: Endpoint, calls: seq<Call>): int
    requires e.Mss() > 0
    decreases |calls|
  {
    if calls == [] then 0
    else Diff(Wrapping, Step(e, calls[0]).s.una, e.s.una) + Advance(Step(e, calls[0]), calls[1..])
  }

  lemma {:induction false} StepsKeepOk(e: Endpoint, calls: seq<Call>)
    requires EndpointOk(e)
    ensures EndpointOk(Steps(e, calls)) && Steps(e, calls).c.sndWnd == e.c.sndWnd
    decreases |calls|
  {
    if calls != [] {
      StepKeepsOk(e, calls[0]);
      StepKeepsSndWnd(e, calls[0]);
      StepsKeepOk(Step(e, calls[0]), calls[1..]);
    }
  }

  lemma {:induction false} StepsAdvance(e: Endpoint, calls: seq<Call>) returns (laps: int)
    requires EndpointOk(e)
    ensures 0 <= Advance(e, calls) && e.s.una + Advance(e, calls) == Steps(e, calls).s.una + M32 * laps
    decreases |calls|
  {
    if calls == [] {
      laps := 0;
    } else {
      var e1 := Step(e, calls[0]);
      StepKeepsOk(e, calls[0]);
      var more := StepsAdvance(e1, calls[1..]);
      laps := more - Cycles(e1.s.una, e.s.una);
    }
  }

  /**
   Over any calls on a new endpoint, with any bytes whatever as input: the send buffer is ascending inside
   [snd_una, snd_nxt), at most snd_wnd numbers are in use, the reorder buffer is a sorted set in its window, and snd_una
   has only ever moved forward.
   */
  lemma CallsKeepWindows(conv: int, config: Config, calls: seq<Call>)
    requires 50 <= config.mtu < M32 && 1 <= config.sndWnd && 1 <= config.rcvWnd < HALF
    ensures var e := Steps(Init(conv, config), calls);
            && EndpointOk(e) && 0 <= Diff(Wrapping, e.s.nxt, e.s.una) <= Min(WIDEST, config.sndWnd)
            && forall call :: 0 <= Diff(Wrapping, Step(e, call).s.una, e.s.una)
    ensures var moved := Advance(Init(conv, config), calls);
            0 <= moved && Steps(Init(conv, config), calls).s.una == U32(moved)
  {
    var start := Init(conv, config);
    var e := Steps(start, calls);
    StepsKeepOk(start, calls);
    var laps := StepsAdvance(start, calls);
    DivUnique(Advance(start, calls), laps, e.s.una);
    forall call
      ensures 0 <= Diff(Wrapping, Step(e, call).s.una, e.s.una)
    {
      StepKeepsOk(e, call);
    }
  }

  // ---------------------------------------------------------------- timeouts of one segment

  /** The true time after a call; the clock shows it cut to 32 bits. */
  function TimeAfter(now: nat, call: Call): nat {
    if call.CallUpdate? && call.now >= 0 then call.now else now
  }

  function EndTime(now: nat, calls: seq<Call>): nat
    decreases |calls|
  {
    if calls == [] then now else EndTime(TimeAfter(now, calls[0]), calls[1..])
  }

  /** Time does not run backwards, and nodelay is not switched on. */
  predicate CallOk(now: nat, call: Call) {
    && (call.CallUpdate? ==> now <= call.now)
    && (call.CallTune? ==> call.nodelay == 0)
  }

  /** The segment with this number stays unacknowledged over the calls, its timeout below half a clock cycle. */
  predicate Follows(e: Endpoint, now: nat, calls: seq<Call>, sn: int)
    requires e.Mss() > 0
    decreases |calls|
  {
    calls == [] || (
      var e1 := Step(e, calls[0]);
      && CallOk(now, calls[0])
      && sn in Sns(e1.s.buf) && (forall seg <- e1.s.buf :: seg.sn == sn ==> seg.rto < HALF)
      && Follows(e1, TimeAfter(now, calls[0]), calls[1..], sn))
  }

  /** A flush finds the segment's timer run out. */
  predicate TimesOut(e: Endpoint, sn: int) {
    exists seg <- Admitted(Wrapping, e).buf :: seg.sn == sn && RunOut(e.c, seg)
  }

  function TimedOut(e: Endpoint, call: Call, sn: int): nat {
    var at := Flushing(e, call);
    if at.Some? && TimesOut(at.value, sn) then 1 else 0
  }

  function TimeoutsOf(e: Endpoint, calls: seq<Call>, sn: int): nat
    requires e.Mss() > 0
    decreases |calls|
  {
    if calls == [] then 0
    else TimedOut(e, calls[0], sn) + TimeoutsOf(Step(e, calls[0]), calls[1..], sn)
  }

  predicate SameTimer(a: Segment, b: Segment) {
    a.(fastack := 0) == b.(fastack := 0)
  }

  /** Every segment was there before, timer and all. */
  ghost predicate OnlyKept(buf: seq<Segment>, buf': seq<Segment>) {
    forall seg' <- buf' :: exists seg <- buf :: SameTimer(seg', seg)
  }

  lemma AbsorbKept(s: Sender, w: Wire)
    ensures forall seg <- SenderAbsorb(Wrapping, s, w).buf :: seg in s.buf
  {
    AbsorbSubset(Wrapping, s, w);
  }

  lemma {:induction false} AbsorbAllKept(e: Endpoint, ws: seq<Wire>)
    ensures forall seg <- AbsorbAll(Wrapping, e, ws).s.buf :: seg in e.s.buf
    decreases |ws|
  {
    if ws != [] {
      AbsorbKept(e.s, ws[0]);
      AbsorbAllKept(Absorb(Wrapping, e, ws[0]), ws[1..]);
    }
  }

  lemma {:induction false} CountSkipsKept(buf: seq<Segment>, sn: int, ts: int)
    ensures OnlyKept(buf, CountSkips(Wrapping, buf, sn, ts))
  {
    forall seg' <- CountSkips(Wrapping, buf, sn, ts)
      ensures exists seg <- buf :: SameTimer(seg', seg)
    {
      if seg' in buf {
        assert SameTimer(seg', seg');
      } else {
        CountSkipsKept(buf[1..], sn, ts);
        if seg' in CountSkips(Wrapping, buf[1..], sn, ts) {
          var seg :| seg in buf[1..] && SameTimer(seg', seg);
          assert seg in buf;
        } else {
          assert buf[0] in buf && SameTimer(seg', buf[0]);
        }
      }
    }
  }

  lemma InputKept(e: Endpoint, packet: Bytes)
    requires e.Mss() > 0
    ensures OnlyKept(e.s.buf, InputPacket(e, packet).0.s.buf)
  {
    var p := Parse(e.conv, packet);
    var e1 := AbsorbAll(Wrapping, e, p.wires);
    AbsorbAllKept(e, p.wires);
    var m := MarkAll(Wrapping, NoAck, p.wires);
    forall seg' <- InputPacket(e, packet).0.s.buf
      ensures exists seg <- e.s.buf :: SameTimer(seg', seg)
    {
      if seg' in e1.s.buf {
        assert seg' in e.s.buf && SameTimer(seg', seg');
      } else {
        CountSkipsKept(e1.s.buf, m.sn, m.ts);
        var seg :| seg in e1.s.buf && SameTimer(seg', seg);
        assert seg in e.s.buf;
      }
    }
  }

  /** A call that does not flush leaves every segment's timer alone. */
  lemma QuietStep(e: Endpoint, call: Call)
    requires e.Mss() > 0 && Flushing(e, call).None?
    ensures OnlyKept(e.s.buf, Step(e, call).s.buf)
  {
    if call.CallInput? {
      InputKept(e, call.packet);
    } else {
      assert Step(e, call).s.buf == e.s.buf;
      assert forall seg <- e.s.buf :: SameTimer(seg, seg);
    }
  }

  /** The segments with this number have timed out k times since t0, when the timeout was r0; last touched at t. */
  predicate Backed(buf: seq<Segment>, sn: int, due: int, t: int, t0: int, r0: int, k: nat) {
    forall seg <- buf :: seg.sn == sn ==> Backing(seg, due, t, t0, r0, k)
  }

  lemma KeptBacked(buf: seq<Segment>, buf': seq<Segment>, sn: int, due: int, t: int, t0: int, r0: int, k: nat)
    requires OnlyKept(buf, buf') && Backed(buf, sn, due, t, t0, r0, k)
    ensures Backed(buf', sn, due, t, t0, r0, k)
  {
    forall seg' <- buf' | seg'.sn == sn
      ensures Backing(seg', due, t, t0, r0, k)
    {
      var seg :| seg in buf && SameTimer(seg', seg);
      SameTimerFields(seg', seg);
    }
  }

  lemma SameTimerFields(a: Segment, b: Segment)
    requires SameTimer(a, b)
    ensures a.sn == b.sn && a.xmit == b.xmit && a.resendts == b.resendts && a.rto == b.rto
  {
    assert a.(fastack := 0).sn == a.sn && a.(fastack := 0).xmit == a.xmit;
    assert a.(fastack := 0).resendts == a.resendts && a.(fastack := 0).rto == a.rto;
  }

  /** Numbers in the send buffer are distinct. */
  lemma Distinct(s: Sender, w: int, i: nat, j: nat)
    requires Ordered(Wrapping, s, w) && i < |s.buf| && j < |s.buf|
    ensures s.buf[i].sn == s.buf[j].sn ==> i == j
  {
    if i < j {
      assert Ahead(Wrapping, s, s.buf[i].sn) < Ahead(Wrapping, s, s.buf[j].sn);
    } else if j < i {
      assert Ahead(Wrapping, s, s.buf[j].sn) < Ahead(Wrapping, s, s.buf[i].sn);
    }
  }

  lemma {:induction false} AdmitExtends(s: Sender, st: Stamp, window: int, rto: int)
    ensures s.buf <= Admit(Wrapping, s, st, window, rto).buf
    decreases |s.queue|
  {
    if Diff(Wrapping, s.nxt, Norm(Wrapping, s.una + window)) < 0 && s.queue != [] {
      AdmitExtends(s.(queue := s.queue[1..], nxt := Norm(Wrapping, s.nxt + 1),
                      buf := s.buf + [Numbered(s.queue[0], st, s.nxt, rto)]), st, window, rto);
    }
  }

  lemma AdmittedOrdered(e: Endpoint)
    requires EndpointOk(e)
    ensures Ordered(Wrapping, Admitted(Wrapping, e), Widest(e.c)) && e.s.buf <= Admitted(Wrapping, e).buf
  {
    ProbesKeepWindow(e.c);
    AdmitKeeps(Wrapping, e.s, Widest(e.c), StampOf(e), SendWindow(e.c), e.c.rto);
    AdmitExtends(e.s, StampOf(e), SendWindow(e.c), e.c.rto);
  }

  /** A flush leaves exactly one segment with the number of one it was to look at: that one, transmitted. */
  lemma FlushedAt(e: Endpoint, i: nat)
    requires EndpointOk(e) && i < |Admitted(Wrapping, e).buf|
    ensures var seg, after := Admitted(Wrapping, e).buf[i], Flushed(Wrapping, e).s.buf;
            && seg.sn in Sns(after)
            && (forall seg' <- after :: seg'.sn == seg.sn ==> seg' == Transmit(e.c, StampOf(e), seg))
            && (TimesOut(e, seg.sn) <==> Why(e.c, seg) == Timeout)
            && forall other <- Admitted(Wrapping, e).buf :: other.sn == seg.sn ==> other == seg
  {
    var s := Admitted(Wrapping, e);
    var seg, after := s.buf[i], TransmitAll(e.c, StampOf(e), s.buf);
    AdmittedOrdered(e);
    TransmitKeepsSn(e.c, StampOf(e), seg);
    assert after[i] in after && seg in s.buf;
    forall j | 0 <= j < |s.buf|
      ensures s.buf[j].sn == seg.sn ==> j == i
    {
      Distinct(s, Widest(e.c), j, i);
    }
    forall seg' <- after | seg'.sn == seg.sn
      ensures seg' == Transmit(e.c, StampOf(e), seg)
    {
      var j :| 0 <= j < |after| && after[j] == seg';
      assert seg' == Transmit(e.c, StampOf(e), s.buf[j]);
      TransmitKeepsSn(e.c, StampOf(e), s.buf[j]);
    }
  }

  lemma TransmitKeepsSn(c: Control, st: Stamp, seg: Segment)
    ensures Transmit(c, st, seg).sn == seg.sn
  {
  }

  lemma FlushedOne(e: Endpoint, sn: int) returns (seg: Segment)
    requires EndpointOk(e) && sn in Sns(e.s.buf)
    ensures seg in e.s.buf && seg.sn == sn
    ensures var after := Flushed(Wrapping, e).s.buf;
            && sn in Sns(after)
            && (forall seg' <- after :: seg'.sn == sn ==> seg' == Transmit(e.c, StampOf(e), seg))
            && (TimesOut(e, sn) <==> Why(e.c, seg) == Timeout)
            && seg in Admitted(Wrapping, e).buf
            && forall other <- Admitted(Wrapping, e).buf :: other.sn == sn ==> other == seg
  {
    seg :| seg in e.s.buf && seg.sn == sn;
    var i :| 0 <= i < |e.s.buf| && e.s.buf[i] == seg;
    AdmittedOrdered(e);
    assert Admitted(Wrapping, e).buf[i] == seg;
    FlushedAt(e, i);
  }

  /** What a flush at time now leaves of a segment's timer. */
  lemma FlushBacked(e: Endpoint, sn: int, now: nat, due: int, t: int, t0: int, r0: int, k: nat)
    returns (due': int, k': nat)
    requires EndpointOk(e) && e.c.nodelay == 0 && e.c.current == U32(now)
    requires sn in Sns(e.s.buf) && Backed(e.s.buf, sn, due, t, t0, r0, k) && r0 >= 0 && t <= now
    requires forall seg <- Flushed(Wrapping, e).s.buf :: seg.sn == sn ==> seg.rto < HALF
    ensures Backed(Flushed(Wrapping, e).s.buf, sn, due', now, t0, r0, k')
    ensures k' == k + if TimesOut(e, sn) then 1 else 0
  {
    var seg := FlushedOne(e, sn);
    var after := Flushed(Wrapping, e).s.buf;
    var seg' :| seg' in after && seg'.sn == sn;
    due', k' := VisitBacked(e.c, StampOf(e), seg, now, due, t, t0, r0, k);
  }

  lemma VisitBacked(c: Control, st: Stamp, seg: Segment, now: nat, due: int, t: int, t0: int, r0: int, k: nat)
    returns (due': int, k': nat)
    requires c.nodelay == 0 && c.current == U32(now) && t <= now && r0 >= 0
    requires Backing(seg, due, t, t0, r0, k) && Transmit(c, st, seg).rto < HALF
    ensures Backing(Transmit(c, st, seg), due', now, t0, r0, k')
    ensures k' == k + if Why(c, seg) == Timeout then 1 else 0
  {
    assert seg.(fastack := seg.fastack) == seg;
    due', k' := VisitKeepsBacking(seg, Visit(now, c, st, seg.fastack), due, t, t0, r0, k);
  }

  /** The invariant of a run that follows one segment. */
  predicate Following(e: Endpoint, sn: int, now: nat, due: int, t: int, t0: int, r0: int, k: nat) {
    && e.c.nodelay == 0 && e.c.current == U32(now) && t <= now && sn in Sns(e.s.buf)
    && Backed(e.s.buf, sn, due, t, t0, r0, k)
  }

  /** The k-th timeout after a first transmission at t0 with timeout r0 is not before its exponential time. */
  predicate BackedOff(k: nat, t0: int, r0: int, now: int) { t0 + (Pow2(k) - 1) * r0 <= now }

  /** What following a segment says about the time. */
  lemma FollowingTime(e: Endpoint, sn: int, now: nat, due: int, t: int, t0: int, r0: int, k: nat)
    requires Following(e, sn, now, due, t, t0, r0, k)
    ensures BackedOff(k, t0, r0, now)
  {
    var seg :| seg in e.s.buf && seg.sn == sn;
    assert Backing(seg, due, t, t0, r0, k);
  }

  lemma FlushKeepsTimes(e: Endpoint)
    ensures Flushed(Wrapping, e).c.nodelay == e.c.nodelay && Flushed(Wrapping, e).c.current == e.c.current
  {
  }

  lemma {:induction false} AbsorbAllKeepsTimes(e: Endpoint, ws: seq<Wire>)
    ensures var c := AbsorbAll(Wrapping, e, ws).c; c.nodelay == e.c.nodelay && c.current == e.c.current
    decreases |ws|
  {
    if ws != [] {
      AbsorbAllKeepsTimes(Absorb(Wrapping, e, ws[0]), ws[1..]);
    }
  }

  lemma StepTimes(e: Endpoint, now: nat, call: Call)
    requires e.Mss() > 0 && e.c.nodelay == 0 && e.c.current == U32(now) && CallOk(now, call)
    ensures Step(e, call).c.nodelay == 0 && Step(e, call).c.current == U32(TimeAfter(now, call))
    ensures now <= TimeAfter(now, call)
    ensures var at := Flushing(e, call);
            at.Some? ==> at.value.c.nodelay == 0 && at.value.c.current == U32(TimeAfter(now, call))
                         && at.value.s == e.s && Step(e, call) == Flushed(Wrapping, at.value)
  {
    match call
    case CallFlush => FlushKeepsTimes(e);
    case CallUpdate(t) => FlushKeepsTimes(e.(c := Tick(e.c, t).0));
    case CallInput(packet) => AbsorbAllKeepsTimes(e, Parse(e.conv, packet).wires);
    case _ =>
  }

  lemma FlushingOk(e: Endpoint, call: Call)
    requires EndpointOk(e) && Flushing(e, call).Some?
    ensures EndpointOk(Flushing(e, call).value)
  {
    if call.CallUpdate? {
      TickKeepsOk(e, call.now);
    }
  }

  lemma FollowFlush(e: Endpoint, at: Endpoint, sn: int, now: nat, due: int, t: int, t0: int, r0: int, k: nat)
    returns (due': int, k': nat)
    requires EndpointOk(at) && at.s == e.s && at.c.nodelay == 0 && at.c.current == U32(now) && t <= now && r0 >= 0
    requires sn in Sns(e.s.buf) && Backed(e.s.buf, sn, due, t, t0, r0, k)
    requires forall seg <- Flushed(Wrapping, at).s.buf :: seg.sn == sn ==> seg.rto < HALF
    ensures Following(Flushed(Wrapping, at), sn, now, due', now, t0, r0, k')
    ensures k' == k + if TimesOut(at, sn) then 1 else 0
  {
    FlushKeepsTimes(at);
    due', k' := FlushBacked(at, sn, now, due, t, t0, r0, k);
    var seg := FlushedOne(at, sn);
  }

  lemma FollowStep(e: Endpoint, sn: int, now: nat, due: int, t: int, t0: int, r0: int, k: nat, call: Call)
    returns (due': int, t': int, k': nat)
    requires EndpointOk(e) && Following(e, sn, now, due, t, t0, r0, k) && r0 >= 0 && CallOk(now, call)
    requires sn in Sns(Step(e, call).s.buf)
    requires forall seg <- Step(e, call).s.buf :: seg.sn == sn ==> seg.rto < HALF
    ensures Following(Step(e, call), sn, TimeAfter(now, call), due', t', t0, r0, k')
    ensures k' == k + TimedOut(e, call, sn)
  {
    var at := Flushing(e, call);
    StepTimes(e, now, call);
    if at.Some? {
      t' := TimeAfter(now, call);
      FlushingOk(e, call);
      due', k' := FollowFlush(e, at.value, sn, t', due, t, t0, r0, k);
    } else {
      due', t', k' := due, t, k;
      QuietBacked(e, call, sn, due, t, t0, r0, k);
    }
  }

  lemma QuietBacked(e: Endpoint, call: Call, sn: int, due: int, t: int, t0: int, r0: int, k: nat)
    requires e.Mss() > 0 && Flushing(e, call).None? && Backed(e.s.buf, sn, due, t, t0, r0, k)
    ensures Backed(Step(e, call).s.buf, sn, due, t, t0, r0, k)
  {
    QuietStep(e, call);
    KeptBacked(e.s.buf, Step(e, call).s.buf, sn, due, t, t0, r0, k);
  }

  lemma {:induction false} FollowAll(
    e: Endpoint, sn: int, now: nat, due: int, t: int, t0: int, r0: int, k: nat, calls: seq<Call>)
    returns (due': int, t': int, k': nat)
    requires EndpointOk(e) && Following(e, sn, now, due, t, t0, r0, k) && r0 >= 0 && Follows(e, now, calls, sn)
    ensures Following(Steps(e, calls), sn, EndTime(now, calls), due', t', t0, r0, k')
    ensures k' == k + TimeoutsOf(e, calls, sn)
    decreases |calls|
  {
    due', t', k' := due, t, k;
    if calls != [] {
      due', t', k' := FollowStep(e, sn, now, due, t, t0, r0, k, calls[0]);
      StepKeepsOk(e, calls[0]);
      due', t', k' := FollowAll(Step(e, calls[0]), sn, TimeAfter(now, calls[0]), due', t', t0, r0, k', calls[1..]);
    }
  }

  /** Right after the flush that first sends it. */
  lemma FirstSent(e: Endpoint, now: nat, seg: Segment) returns (due: int)
    requires EndpointOk(e) && e.c.nodelay == 0 && e.c.current == U32(now) && 0 <= e.c.rto <= RTO_MAX
    requires seg in Admitted(Wrapping, e).buf && seg.xmit == 0
    ensures Following(Flushed(Wrapping, e), seg.sn, now, due, now, now, e.c.rto, 0)
  {
    var i :| 0 <= i < |Admitted(Wrapping, e).buf| && Admitted(Wrapping, e).buf[i] == seg;
    FlushedAt(e, i);
    FlushKeepsTimes(e);
    due := FirstBacked(e.c, StampOf(e), now, seg);
  }

  lemma FirstBacked(c: Control, st: Stamp, now: nat, seg: Segment) returns (due: int)
    requires seg.xmit == 0 && c.nodelay == 0 && c.current == U32(now) && 0 <= c.rto <= RTO_MAX
    ensures Backing(Transmit(c, st, seg), due, now, now, c.rto, 0)
  {
    due := now + c.rto + c.rto / 8;
    U32Add(now, c.rto + c.rto / 8);
    assert Pow2(1) == 2 * Pow2(0);
  }

  /**
   Exponential backoff in an endpoint's run: with nodelay off, a segment that a flush first sends at time now with the
   timeout e.c.rto has its k-th timeout no earlier than now + (2^k - 1) * e.c.rto, whatever is sent, read, received,
   acknowledged around it and tuned meanwhile, and through any wrap of the clock.
   */
  lemma RunBackoff(e: Endpoint, now: nat, seg: Segment, calls: seq<Call>)
    requires EndpointOk(e) && e.c.nodelay == 0 && e.c.current == U32(now) && 0 <= e.c.rto <= RTO_MAX
    requires seg in Admitted(Wrapping, e).buf && seg.xmit == 0
    requires Follows(Flushed(Wrapping, e), now, calls, seg.sn)
    ensures BackedOff(TimeoutsOf(Flushed(Wrapping, e), calls, seg.sn), now, e.c.rto, EndTime(now, calls))
  {
    var due := FirstSent(e, now, seg);
    FlushKeepsOk(e);
    FollowedTime(Flushed(Wrapping, e), seg.sn, now, due, e.c.rto, calls);
  }

  lemma FollowedTime(e: Endpoint, sn: int, now: nat, due: int, r0: int, calls: seq<Call>)
    requires EndpointOk(e) && Following(e, sn, now, due, now, now, r0, 0) && r0 >= 0 && Follows(e, now, calls, sn)
    ensures BackedOff(TimeoutsOf(e, calls, sn), now, r0, EndTime(now, calls))
  {
    var due', t', k := FollowAll(e, sn, now, due, now, now, r0, 0, calls);
    assert k == TimeoutsOf(e, calls, sn);
    FollowingTime(Steps(e, calls), sn, EndTime(now, calls), due', t', now, r0, k);
  }

  /** So within a span of time a segment times out only logarithmically often. */
  lemma RunTimeoutsLogarithmic(e: Endpoint, now: nat, seg: Segment, calls: seq<Call>, span: int)
    requires EndpointOk(e) && e.c.nodelay == 0 && e.c.current == U32(now) && 0 < e.c.rto <= RTO_MAX
    requires seg in Admitted(Wrapping, e).buf && seg.xmit == 0
    requires Follows(Flushed(Wrapping, e), now, calls, seg.sn) && EndTime(now, calls) <= now + span
    ensures Pow2(TimeoutsOf(Flushed(Wrapping, e), calls, seg.sn)) <= span / e.c.rto + 1
  {
    RunBackoff(e, now, seg, calls);
    FewTimeouts(TimeoutsOf(Flushed(Wrapping, e), calls, seg.sn), now, e.c.rto, EndTime(now, calls), span);
  }

  lemma FewTimeouts(k: nat, t0: int, r0: int, end: int, span: int)
    requires BackedOff(k, t0, r0, end) && r0 > 0 && end <= t0 + span
    ensures Pow2(k) <= span / r0 + 1
  {
    DivAtLeast(span, r0, Pow2(k) - 1);
  }

  // ---------------------------------------------------------------- an answer of now after a flush

  function Fast(): Endpoint { Init(0, Config(50, 1, WND_RCV, 0, 100, 0, 1)) }

  /** The segment after the flush at time 0: due at 225. */
  function SentSegment(): Segment { Segment(0, CMD_PUSH, 0, WND_RCV, 0, 0, 0, [7], 225, RTO_DEF, 0, 1) }

  lemma QueuedFirst()
    ensures Step(Fast(), CallSend([7])) == Fast().(s := Sender(0, 0, [Unsent(Piece(0, [7]))], []))
  {
    assert UnsentAll([Piece(0, [7])]) == [Unsent(Piece(0, [7]))];
  }

  lemma AdmittedFirst(e: Endpoint)
    requires e.s == Sender(0, 0, [Unsent(Piece(0, [7]))], []) && SendWindow(ProbeTimer(e.c)) == 1
    ensures Admitted(Wrapping, e) == Sender(0, 1, [], [Numbered(Unsent(Piece(0, [7])), StampOf(e), 0, e.c.rto)])
  {
    assert Diff(Wrapping, 0, 1) == -1 && Diff(Wrapping, 1, 1) == 0;
    var s1 := Sender(0, 1, [], [] + [Numbered(e.s.queue[0], StampOf(e), 0, e.c.rto)]);
    assert Admit(Wrapping, s1, StampOf(e), 1, e.c.rto) == s1;
  }

  lemma SentAtZero()
    ensures var e := Steps(Fast(), [CallSend([7]), CallUpdate(0)]);
            && e.s == Sender(0, 1, [], [SentSegment()])
            && e.c.updated && e.c.tsFlush == 100 && e.c.interval == 100 && e.c.rto == RTO_DEF && e.c.nodelay == 0
            && e.c.fastresend == 0
  {
    var calls := [CallSend([7]), CallUpdate(0)];
    assert calls[1..] == [CallUpdate(0)] && [CallUpdate(0)][1..] == [];
    QueuedFirst();
    var e1 := Step(Fast(), CallSend([7]));
    assert Steps(Fast(), calls) == Steps(e1, [CallUpdate(0)]) == Step(e1, CallUpdate(0));
    FlushedAtZero(e1);
  }

  lemma FlushedAtZero(e: Endpoint)
    requires e == Fast().(s := Sender(0, 0, [Unsent(Piece(0, [7]))], []))
    ensures var e' := Step(e, CallUpdate(0));
            && e'.s == Sender(0, 1, [], [SentSegment()])
            && e'.c.updated && e'.c.tsFlush == 100 && e'.c.interval == 100 && e'.c.rto == RTO_DEF && e'.c.nodelay == 0
            && e'.c.fastresend == 0
  {
    var e0 := e.(c := Tick(e.c, 0).0);
    AdmittedFirst(e0);
    var seg := Numbered(Unsent(Piece(0, [7])), StampOf(e0), 0, RTO_DEF);
    assert Transmit(e0.c, StampOf(e0), seg) == SentSegment();
    assert TransmitAll(e0.c, StampOf(e0), [seg]) == [SentSegment()];
  }

  lemma StaysUntouched(c: Control)
    requires c.current == HALF + 225 && c.fastresend == 0
    ensures Why(c, SentSegment()) == Quiet && HalfAway(c, SentSegment())
  {
    assert Itimediff(HALF + 225, 225) == -HALF && Itimediff(225, HALF + 225) == -HALF;
  }

  /** Such a segment stays untouched by a flush half a clock cycle after its time, and makes `check` say now. */
  lemma HalfCycleLater(e: Endpoint, now: int)
    requires e.Mss() > 0 && e.s == Sender(0, 1, [], [SentSegment()]) && now == HALF + 225
    requires e.c.updated && e.c.tsFlush == 100 && e.c.interval == 100 && e.c.rto == RTO_DEF && e.c.nodelay == 0
    requires e.c.fastresend == 0
    ensures Tick(e.c, now).1
    ensures var e' := Step(e, CallUpdate(now)); Check(e'.c, e'.s.buf, now) == U32(now)
  {
    var e1 := e.(c := Tick(e.c, now).0);
    assert Admitted(Wrapping, e1) == e.s;
    StaysUntouched(e1.c);
    assert SentSegment() in e.s.buf;
    CheckLaterAfterFlush(Wrapping, e, now);
    AfterNow(Flushed(Wrapping, e1), now);
  }

  /**
   Two calls on a new endpoint after which, half a clock cycle later, `update` flushes and `check` still says now,
   though the segment that makes it do so is not due.
   */
  lemma CheckNowAfterFlush()
    ensures var e := Steps(Init(0, Config(50, 1, WND_RCV, 0, 100, 0, 1)), [CallSend([7]), CallUpdate(0)]);
            var now := HALF + 225;
            var e' := Step(e, CallUpdate(now));
            Tick(e.c, now).1 && Check(e'.c, e'.s.buf, now) == U32(now)
  {
    SentAtZero();
    HalfCycleLater(Steps(Fast(), [CallSend([7]), CallUpdate(0)]), HALF + 225);
  }
}
