/** How long a timeout gets. */
module KcpBackoff {
  // The other side of the backoff in KcpCalls: over any calls on an endpoint, the timeout of a segment that stays
  // unacknowledged is bounded by the number of times it has run out, and so is the time that may pass until it runs out
  // again (tuya_p2p/_kcp_python.py:514-547).

  import opened Bytes
  import opened Serial
  import opened KcpModel
  import opened KcpReceive
  import opened KcpInvariant
  import opened KcpTiming
  import opened KcpCalls

  // ---------------------------------------------------------------- the timeout of one segment over a run

  /**
   Where a timeout lies that started at r0: with nodelay off and estimated timeouts of at most `most`, or with nodelay
   on and estimated timeouts between `least` and `most`.
   */
  datatype Band = Double(r0: int, most: int) | Linear(r0: int, least: int, most: int)

  /** The estimated timeouts the band is about. */
  predicate Timers(b: Band, c: Control) {
    match b
    case Double(r0, most) => c.nodelay == 0 && 0 <= c.rto <= most
    case Linear(r0, least, most) => c.nodelay != 0 && least <= c.rto <= most
  }

  /** The timeouts, in milliseconds, after k times that they have run out. */
  predicate Within(b: Band, k: nat, rto: int) {
    match b
    case Double(r0, most) => Pow2(k) * r0 <= rto <= Pow2(k) * most
    case Linear(r0, least, most) => GrownBy(k, rto - r0, least, most)
  }

  /** A timeout has grown k times by half of something between `least` and `most`, rounded down. */
  predicate GrownBy(k: nat, growth: int, least: int, most: int) {
    k * (least - 1) <= 2 * growth <= k * most
  }

  /** The segment with this number stays unacknowledged over the calls, and every flush finds such estimates. */
  predicate Stays(e: Endpoint, calls: seq<Call>, sn: int, b: Band)
    requires e.Mss() > 0
    decreases |calls|
  {
    calls == [] || (
      && sn in Sns(Step(e, calls[0]).s.buf)
      && (var at := Flushing(e, calls[0]); at.Some? ==> Timers(b, at.value.c))
      && Stays(Step(e, calls[0]), calls[1..], sn, b))
  }

  predicate TimeoutsIn(buf: seq<Segment>, sn: int, k: nat, b: Band) {
    forall seg <- buf :: seg.sn == sn ==> seg.xmit > 0 && Within(b, k, seg.rto)
  }

  /**
   How a timeout gets longer when it runs out: with nodelay off by itself or by the estimated timeout, whichever is
   more, and with nodelay on by half of the estimated one.
   */
  predicate Lengthens(c: Control, rto: int, rto': int) {
    && (c.nodelay == 0 ==> rto' == Max(2 * rto, rto + c.rto))
    && (c.nodelay != 0 ==> 2 * (rto' - rto) <= c.rto <= 2 * (rto' - rto) + 1)
  }

  /** What a flush makes of the timeout of a segment that has been sent. */
  lemma VisitTimeout(c: Control, st: Stamp, seg: Segment)
    requires seg.xmit > 0
    ensures var seg' := Transmit(c, st, seg);
            && seg'.xmit > 0
            && (!RunOut(c, seg) ==> seg'.rto == seg.rto)
            && (RunOut(c, seg) ==> Lengthens(c, seg.rto, seg'.rto))
  {
  }

  lemma Once(p: int, m: int)
    requires p >= 1 && m >= 0
    ensures m <= p * m
  {
  }

  lemma Twice(k: nat, x: int)
    ensures Pow2(k + 1) * x == 2 * (Pow2(k) * x)
  {
  }

  lemma Widens(b: Band, k: nat, c: Control, r: int, r': int)
    requires Within(b, k, r) && Timers(b, c) && Lengthens(c, r, r')
    ensures Within(b, k + 1, r')
  {
    match b
    case Double(r0, most) =>
      Once(Pow2(k), most);
      var low, high := Pow2(k) * r0, Pow2(k) * most;
      assert 2 * low <= r' <= 2 * high;
      Twice(k, r0);
      Twice(k, most);
    case Linear(r0, least, most) =>
      OneMore(k, least - 1);
      OneMore(k, most);
  }

  lemma FlushTimeouts(e: Endpoint, sn: int, k: nat, b: Band) returns (k': nat)
    requires EndpointOk(e) && sn in Sns(e.s.buf) && TimeoutsIn(e.s.buf, sn, k, b) && Timers(b, e.c)
    ensures k' == k + (if TimesOut(e, sn) then 1 else 0) && TimeoutsIn(Flushed(Wrapping, e).s.buf, sn, k', b)
  {
    var seg := FlushedOne(e, sn);
    VisitTimeout(e.c, StampOf(e), seg);
    k' := k + if TimesOut(e, sn) then 1 else 0;
    if RunOut(e.c, seg) {
      Widens(b, k, e.c, seg.rto, Transmit(e.c, StampOf(e), seg).rto);
    }
  }

  lemma QuietTimeouts(e: Endpoint, call: Call, sn: int, k: nat, b: Band)
    requires e.Mss() > 0 && Flushing(e, call).None? && TimeoutsIn(e.s.buf, sn, k, b)
    ensures TimeoutsIn(Step(e, call).s.buf, sn, k, b)
  {
    QuietStep(e, call);
    KeptTimeouts(e.s.buf, Step(e, call).s.buf, sn, k, b);
  }

  lemma KeptTimeouts(buf: seq<Segment>, buf': seq<Segment>, sn: int, k: nat, b: Band)
    requires OnlyKept(buf, buf') && TimeoutsIn(buf, sn, k, b)
    ensures TimeoutsIn(buf', sn, k, b)
  {
    forall seg' <- buf' | seg'.sn == sn
      ensures seg'.xmit > 0 && Within(b, k, seg'.rto)
    {
      var seg :| seg in buf && SameTimer(seg', seg);
      SameTimerFields(seg', seg);
    }
  }

  lemma FlushingIs(e: Endpoint, call: Call)
    requires e.Mss() > 0 && Flushing(e, call).Some?
    ensures var at := Flushing(e, call).value; at.s == e.s && at.mtu == e.mtu && Step(e, call) == Flushed(Wrapping, at)
  {
  }

  lemma StepTimeouts(e: Endpoint, call: Call, sn: int, k: nat, b: Band) returns (k': nat)
    requires EndpointOk(e) && sn in Sns(e.s.buf) && TimeoutsIn(e.s.buf, sn, k, b)
    requires var at := Flushing(e, call); at.Some? ==> Timers(b, at.value.c)
    ensures k' == k + TimedOut(e, call, sn) && TimeoutsIn(Step(e, call).s.buf, sn, k', b)
  {
    var at := Flushing(e, call);
    k' := k;
    if at.Some? {
      FlushingOk(e, call);
      FlushingIs(e, call);
      k' := FlushTimeouts(at.value, sn, k, b);
    } else {
      QuietTimeouts(e, call, sn, k, b);
    }
  }

  /** Every timeout stays in a band that widens each time it runs out. */
  lemma {:induction false} RunTimeouts(e: Endpoint, calls: seq<Call>, sn: int, k: nat, b: Band) returns (k': nat)
    requires EndpointOk(e) && sn in Sns(e.s.buf) && TimeoutsIn(e.s.buf, sn, k, b) && Stays(e, calls, sn, b)
    ensures sn in Sns(Steps(e, calls).s.buf)
    ensures k' == k + TimeoutsOf(e, calls, sn) && TimeoutsIn(Steps(e, calls).s.buf, sn, k', b)
    decreases |calls|
  {
    k' := k;
    if calls != [] {
      k' := StepTimeouts(e, calls[0], sn, k, b);
      StepKeepsOk(e, calls[0]);
      k' := RunTimeouts(Step(e, calls[0]), calls[1..], sn, k', b);
    }
  }

  /** The timeout that a first transmission sets is the estimated one. */
  lemma FirstTimeout(e: Endpoint, seg: Segment, b: Band)
    requires EndpointOk(e) && seg in Admitted(Wrapping, e).buf && seg.xmit == 0 && Within(b, 0, e.c.rto)
    ensures seg.sn in Sns(Flushed(Wrapping, e).s.buf)
    ensures TimeoutsIn(Flushed(Wrapping, e).s.buf, seg.sn, 0, b)
  {
    var i :| 0 <= i < |Admitted(Wrapping, e).buf| && Admitted(Wrapping, e).buf[i] == seg;
    FlushedAt(e, i);
  }

  lemma RunFromFirst(e: Endpoint, seg: Segment, calls: seq<Call>, b: Band) returns (k: nat)
    requires EndpointOk(e) && Timers(b, e.c) && b.r0 == e.c.rto
    requires seg in Admitted(Wrapping, e).buf && seg.xmit == 0 && Stays(Flushed(Wrapping, e), calls, seg.sn, b)
    ensures var e0 := Flushed(Wrapping, e);
            && seg.sn in Sns(Steps(e0, calls).s.buf)
            && k == TimeoutsOf(e0, calls, seg.sn) && TimeoutsIn(Steps(e0, calls).s.buf, seg.sn, k, b)
  {
    FirstTimeout(e, seg, b);
    FlushKeepsOk(e);
    k := RunTimeouts(Flushed(Wrapping, e), calls, seg.sn, 0, b);
  }

  /**
   With nodelay off, a segment first sent with the timeout r0 = e.c.rto has a timeout between 2^k * r0 and 2^k times the
   largest estimated timeout once it has run out k times: exactly 2^k * r0 if the estimate has not risen above r0.
   */
  lemma RunDoubling(e: Endpoint, seg: Segment, calls: seq<Call>, most: int)
    requires EndpointOk(e) && e.c.nodelay == 0 && 0 <= e.c.rto <= most
    requires seg in Admitted(Wrapping, e).buf && seg.xmit == 0
    requires Stays(Flushed(Wrapping, e), calls, seg.sn, Double(e.c.rto, most))
    ensures var e0 := Flushed(Wrapping, e);
            var k := TimeoutsOf(e0, calls, seg.sn);
            && seg.sn in Sns(Steps(e0, calls).s.buf)
            && forall seg' <- Steps(e0, calls).s.buf :: seg'.sn == seg.sn ==>
                 && Pow2(k) * e.c.rto <= seg'.rto <= Pow2(k) * most
                 && (most == e.c.rto ==> seg'.rto == Pow2(k) * e.c.rto)
  {
    var k := RunFromFirst(e, seg, calls, Double(e.c.rto, most));
  }

  /** With nodelay on a timeout only grows by half the estimated timeout, rounded down, each time it runs out. */
  lemma RunLinear(e: Endpoint, seg: Segment, calls: seq<Call>, least: int, most: int)
    requires EndpointOk(e) && e.c.nodelay != 0 && least <= e.c.rto <= most
    requires seg in Admitted(Wrapping, e).buf && seg.xmit == 0
    requires Stays(Flushed(Wrapping, e), calls, seg.sn, Linear(e.c.rto, least, most))
    ensures var e0 := Flushed(Wrapping, e);
            var k := TimeoutsOf(e0, calls, seg.sn);
            && seg.sn in Sns(Steps(e0, calls).s.buf)
            && forall seg' <- Steps(e0, calls).s.buf :: seg'.sn == seg.sn ==>
                 GrownBy(k, seg'.rto - e.c.rto, least, most)
  {
    var k := RunFromFirst(e, seg, calls, Linear(e.c.rto, least, most));
  }

  // ---------------------------------------------------------------- when the timer runs out at the latest

  /** A flush finds the segment passed often enough, and its timer still running. */
  predicate SentEarly(e: Endpoint, sn: int) {
    exists seg <- Admitted(Wrapping, e).buf ::
      seg.sn == sn && seg.xmit != 0 && !RunOut(e.c, seg) && PassedOften(e.c, seg)
  }

  function Early(e: Endpoint, call: Call, sn: int): nat {
    var at := Flushing(e, call);
    if at.Some? && SentEarly(at.value, sn) then 1 else 0
  }

  function EarlyOf(e: Endpoint, calls: seq<Call>, sn: int): nat
    requires e.Mss() > 0
    decreases |calls|
  {
    if calls == [] then 0 else Early(e, calls[0], sn) + EarlyOf(Step(e, calls[0]), calls[1..], sn)
  }

  /** The time of the last flush. */
  function LastFlush(e: Endpoint, call: Call, now: nat, last: nat): nat {
    if Flushing(e, call).Some? then TimeAfter(now, call) else last
  }

  /**
   The segment with this number stays unacknowledged, nodelay stays off, the estimated timeout stays at or below `most`,
   and every call comes less than `gap` after the last flush.
   */
  predicate Watched(e: Endpoint, now: nat, last: nat, calls: seq<Call>, sn: int, most: int, gap: nat)
    requires e.Mss() > 0
    decreases |calls|
  {
    calls == [] || (
      var e1, t := Step(e, calls[0]), TimeAfter(now, calls[0]);
      && CallOk(now, calls[0]) && t < last + gap
      && sn in Sns(e1.s.buf) && (forall seg <- e1.s.buf :: seg.sn == sn ==> seg.rto < HALF)
      && (var at := Flushing(e, calls[0]); at.Some? ==> 0 <= at.value.c.rto <= most)
      && Watched(e1, t, LastFlush(e, calls[0], now, last), calls[1..], sn, most, gap))
  }

  /**
   The latest time at which a segment's timer runs out that was first sent at t0, has run out k times and has been sent
   early f times, when flushes are less than `gap` apart and estimated timeouts at most `most`.
   */
  function Latest(t0: int, most: int, gap: int, k: nat, f: nat): int {
    t0 + most / 8 + (2 * Pow2(k) - 1) * most + k * gap + f * (Pow2(k) * most)
  }

  /** A segment whose timer runs out at the true time `due`, last looked at by a flush at time `last`. */
  predicate Timed(seg: Segment, due: int, last: int, latest: int, cap: int) {
    && seg.xmit > 0 && seg.resendts == U32(due) && 0 < seg.rto <= cap && seg.rto < HALF
    && last < due < last + HALF && due <= latest
  }

  predicate TimedIn(buf: seq<Segment>, sn: int, due: int, last: int, latest: int, cap: int) {
    forall seg <- buf :: seg.sn == sn ==> Timed(seg, due, last, latest, cap)
  }

  /** What one flush does to a segment's timer. */
  lemma VisitTimed(c: Control, st: Stamp, seg: Segment, now: int, due: int, last: int, latest: int, cap: int, gap: nat)
    returns (due': int)
    requires c.nodelay == 0 && c.current == U32(now) && last <= now < last + gap < last + HALF
    requires Timed(seg, due, last, latest, cap) && Transmit(c, st, seg).rto < HALF && 0 <= c.rto <= cap
    ensures var seg' := Transmit(c, st, seg);
            && (RunOut(c, seg) ==> Timed(seg', due', now, latest + gap + 2 * cap, 2 * cap))
            && (!RunOut(c, seg) ==> Timed(seg', due', now, latest + (if PassedOften(c, seg) then cap else 0), cap))
  {
    ItimediffExact(now, due);
    assert RunOut(c, seg) <==> now >= due;
    if now >= due {
      due' := now + Transmit(c, st, seg).rto;
      U32Add(now, Transmit(c, st, seg).rto);
    } else if PassedOften(c, seg) {
      due' := now + seg.rto;
      U32Add(now, seg.rto);
    } else {
      due' := due;
    }
  }

  /** The bound and the cap after one more time out, and after one more early resend. */
  lemma LatestGrows(t0: int, most: int, gap: int, k: nat, f: nat)
    requires most >= 0
    ensures Latest(t0, most, gap, k, f) + gap + 2 * (Pow2(k) * most) <= Latest(t0, most, gap, k + 1, f)
    ensures Latest(t0, most, gap, k, f) + Pow2(k) * most == Latest(t0, most, gap, k, f + 1)
    ensures Pow2(k + 1) * most == 2 * (Pow2(k) * most) && 0 <= most <= Pow2(k) * most
  {
    var cap := Pow2(k) * most;
    Twice(k, most);
    Once(Pow2(k), most);
    OneMore(k, gap);
    OneMore(f, cap);
    assert (2 * Pow2(k + 1) - 1) * most == 2 * (Pow2(k + 1) * most) - most;
    assert (2 * Pow2(k) - 1) * most == 2 * cap - most;
    ScaledMore(f, cap);
  }

  lemma ScaledMore(f: nat, cap: int)
    requires cap >= 0
    ensures f * cap <= f * (2 * cap)
  {
  }

  /** Where a run that watches one segment stands. */
  datatype Watch = Watch(due: int, last: nat, k: nat, f: nat)

  predicate InTimeFor(e: Endpoint, sn: int, now: nat, w: Watch, t0: int, most: int, gap: nat) {
    && e.c.nodelay == 0 && e.c.current == U32(now) && w.last <= now < w.last + gap < w.last + HALF
    && sn in Sns(e.s.buf)
    && TimedIn(e.s.buf, sn, w.due, w.last, Latest(t0, most, gap, w.k, w.f), Pow2(w.k) * most)
  }

  lemma VisitWatch(c: Control, st: Stamp, seg: Segment, now: nat, w: Watch, t0: int, most: int, gap: nat)
    returns (w': Watch)
    requires c.nodelay == 0 && c.current == U32(now) && w.last <= now < w.last + gap < w.last + HALF
    requires Timed(seg, w.due, w.last, Latest(t0, most, gap, w.k, w.f), Pow2(w.k) * most)
    requires Transmit(c, st, seg).rto < HALF && 0 <= c.rto <= most
    ensures w'.k == w.k + (if RunOut(c, seg) then 1 else 0)
    ensures w'.f == w.f + (if !RunOut(c, seg) && PassedOften(c, seg) then 1 else 0)
    ensures w'.last == now
    ensures Timed(Transmit(c, st, seg), w'.due, now, Latest(t0, most, gap, w'.k, w'.f), Pow2(w'.k) * most)
  {
    LatestGrows(t0, most, gap, w.k, w.f);
    var due := VisitTimed(c, st, seg, now, w.due, w.last, Latest(t0, most, gap, w.k, w.f), Pow2(w.k) * most, gap);
    w' := Watch(due, now, w.k + (if RunOut(c, seg) then 1 else 0),
                w.f + (if !RunOut(c, seg) && PassedOften(c, seg) then 1 else 0));
  }

  lemma FlushTimed(e: Endpoint, sn: int, now: nat, w: Watch, t0: int, most: int, gap: nat) returns (w': Watch)
    requires EndpointOk(e) && InTimeFor(e, sn, now, w, t0, most, gap) && 0 <= e.c.rto <= most
    requires forall seg <- Flushed(Wrapping, e).s.buf :: seg.sn == sn ==> seg.rto < HALF
    ensures w'.k == w.k + (if TimesOut(e, sn) then 1 else 0) && w'.f == w.f + (if SentEarly(e, sn) then 1 else 0)
    ensures w'.last == now && InTimeFor(Flushed(Wrapping, e), sn, now, w', t0, most, gap)
  {
    var seg := FlushedOne(e, sn);
    var seg' :| seg' in Flushed(Wrapping, e).s.buf && seg'.sn == sn;
    w' := VisitWatch(e.c, StampOf(e), seg, now, w, t0, most, gap);
    FlushKeepsTimes(e);
  }

  lemma QuietTimed(e: Endpoint, call: Call, sn: int, due: int, last: int, latest: int, cap: int)
    requires e.Mss() > 0 && Flushing(e, call).None? && TimedIn(e.s.buf, sn, due, last, latest, cap)
    ensures TimedIn(Step(e, call).s.buf, sn, due, last, latest, cap)
  {
    QuietStep(e, call);
    KeptTimed(e.s.buf, Step(e, call).s.buf, sn, due, last, latest, cap);
  }

  lemma KeptTimed(buf: seq<Segment>, buf': seq<Segment>, sn: int, due: int, last: int, latest: int, cap: int)
    requires OnlyKept(buf, buf') && TimedIn(buf, sn, due, last, latest, cap)
    ensures TimedIn(buf', sn, due, last, latest, cap)
  {
    forall seg' <- buf' | seg'.sn == sn
      ensures Timed(seg', due, last, latest, cap)
    {
      var seg :| seg in buf && SameTimer(seg', seg);
      SameTimerFields(seg', seg);
    }
  }

  /** One call, in the middle of a run that watches the segment. */
  predicate WatchedCall(e: Endpoint, now: nat, last: nat, call: Call, sn: int, most: int, gap: nat)
    requires e.Mss() > 0
  {
    && CallOk(now, call) && TimeAfter(now, call) < last + gap
    && sn in Sns(Step(e, call).s.buf) && (forall seg <- Step(e, call).s.buf :: seg.sn == sn ==> seg.rto < HALF)
    && var at := Flushing(e, call); at.Some? ==> 0 <= at.value.c.rto <= most
  }

  lemma StepTimed(e: Endpoint, sn: int, now: nat, w: Watch, call: Call, t0: int, most: int, gap: nat)
    returns (w': Watch)
    requires EndpointOk(e) && InTimeFor(e, sn, now, w, t0, most, gap)
    requires WatchedCall(e, now, w.last, call, sn, most, gap)
    ensures w'.k == w.k + TimedOut(e, call, sn) && w'.f == w.f + Early(e, call, sn)
    ensures w'.last == LastFlush(e, call, now, w.last)
    ensures InTimeFor(Step(e, call), sn, TimeAfter(now, call), w', t0, most, gap)
  {
    var at := Flushing(e, call);
    StepTimes(e, now, call);
    if at.Some? {
      FlushingOk(e, call);
      w' := FlushTimed(at.value, sn, TimeAfter(now, call), w, t0, most, gap);
    } else {
      w' := w;
      QuietTimed(e, call, sn, w.due, w.last, Latest(t0, most, gap, w.k, w.f), Pow2(w.k) * most);
    }
  }

  lemma {:induction false} RunTimed(
    e: Endpoint, sn: int, now: nat, w: Watch, calls: seq<Call>, t0: int, most: int, gap: nat) returns (w': Watch)
    requires EndpointOk(e) && InTimeFor(e, sn, now, w, t0, most, gap)
    requires Watched(e, now, w.last, calls, sn, most, gap)
    ensures w'.k == w.k + TimeoutsOf(e, calls, sn) && w'.f == w.f + EarlyOf(e, calls, sn)
    ensures InTimeFor(Steps(e, calls), sn, EndTime(now, calls), w', t0, most, gap)
    decreases |calls|
  {
    w' := w;
    if calls != [] {
      w' := StepTimed(e, sn, now, w, calls[0], t0, most, gap);
      StepKeepsOk(e, calls[0]);
      w' := RunTimed(Step(e, calls[0]), sn, TimeAfter(now, calls[0]), w', calls[1..], t0, most, gap);
    }
  }

  lemma FirstTimed(c: Control, st: Stamp, now: nat, seg: Segment, most: int, gap: nat) returns (due: int)
    requires seg.xmit == 0 && c.nodelay == 0 && c.current == U32(now) && 0 < c.rto <= most && c.rto <= RTO_MAX
    ensures Timed(Transmit(c, st, seg), due, now, Latest(now, most, gap, 0, 0), Pow2(0) * most)
  {
    due := now + c.rto + c.rto / 8;
    U32Add(now, c.rto + c.rto / 8);
    assert Latest(now, most, gap, 0, 0) == now + most / 8 + most;
  }

  lemma StartTimed(e: Endpoint, now: nat, seg: Segment, most: int, gap: nat) returns (w: Watch)
    requires EndpointOk(e) && e.c.nodelay == 0 && e.c.current == U32(now) && 0 < e.c.rto <= RTO_MAX && e.c.rto <= most
    requires seg in Admitted(Wrapping, e).buf && seg.xmit == 0 && 0 < gap < HALF
    ensures w.last == now && w.k == 0 && w.f == 0 && InTimeFor(Flushed(Wrapping, e), seg.sn, now, w, now, most, gap)
  {
    var i :| 0 <= i < |Admitted(Wrapping, e).buf| && Admitted(Wrapping, e).buf[i] == seg;
    FlushedAt(e, i);
    FlushKeepsTimes(e);
    var due := FirstTimed(e.c, StampOf(e), now, seg, most, gap);
    w := Watch(due, now, 0, 0);
  }

  /** Flushed within `gap` of the latest time at which the timer runs out, a segment has not waited longer than this. */
  predicate InBound(now: int, t0: int, most: int, gap: nat, k: nat, f: nat) {
    now < Latest(t0, most, gap, k, f) + gap
  }

  lemma WatchEnds(e: Endpoint, sn: int, now: nat, w: Watch, t0: int, most: int, gap: nat, k: nat, f: nat)
    requires InTimeFor(e, sn, now, w, t0, most, gap) && w.k == k && w.f == f
    ensures InBound(now, t0, most, gap, k, f)
  {
    var seg :| seg in e.s.buf && seg.sn == sn;
    assert Timed(seg, w.due, w.last, Latest(t0, most, gap, w.k, w.f), Pow2(w.k) * most);
  }

  /**
   A lost segment is resent in time: with nodelay off, flushes less than `gap` apart and estimated timeouts at most
   `most`, a segment first sent at `now` that is still unacknowledged after k timeouts and f early resends has not
   waited beyond now + most / 8 + (2^(k + 1) - 1) * most + (k + 1) * gap + f * 2^k * most.
   */
  lemma RunLatest(e: Endpoint, now: nat, seg: Segment, calls: seq<Call>, most: int, gap: nat)
    requires EndpointOk(e) && e.c.nodelay == 0 && e.c.current == U32(now) && 0 < e.c.rto <= RTO_MAX && e.c.rto <= most
    requires seg in Admitted(Wrapping, e).buf && seg.xmit == 0 && 0 < gap < HALF
    requires Watched(Flushed(Wrapping, e), now, now, calls, seg.sn, most, gap)
    ensures var e0 := Flushed(Wrapping, e);
            InBound(EndTime(now, calls), now, most, gap, TimeoutsOf(e0, calls, seg.sn), EarlyOf(e0, calls, seg.sn))
  {
    var w := StartTimed(e, now, seg, most, gap);
    FlushKeepsOk(e);
    WatchedToEnd(Flushed(Wrapping, e), seg.sn, now, w, calls, most, gap);
  }

  lemma WatchedToEnd(e: Endpoint, sn: int, now: nat, w: Watch, calls: seq<Call>, most: int, gap: nat)
    requires EndpointOk(e) && InTimeFor(e, sn, now, w, now, most, gap) && w.k == 0 && w.f == 0
    requires Watched(e, now, w.last, calls, sn, most, gap)
    ensures InBound(EndTime(now, calls), now, most, gap, TimeoutsOf(e, calls, sn), EarlyOf(e, calls, sn))
  {
    var w' := RunTimed(e, sn, now, w, calls, now, most, gap);
    WatchEnds(Steps(e, calls), sn, EndTime(now, calls), w', now, most, gap,
              TimeoutsOf(e, calls, sn), EarlyOf(e, calls, sn));
  }
}
