/** Time: estimator, backoff, scheduling (tuya_p2p/_kcp_python.py:325-385). */
module KcpTiming {
  // The round-trip estimator, exponential backoff (tuya_p2p/_kcp_python.py:519-550), and the agreement of `check`
  // with `update`.

  import opened Bytes
  import opened Serial
  import opened KcpModel
  import opened KcpStream
  import opened KcpSystem
  import opened KcpInvariant

  // ---------------------------------------------------------------- the estimator

  /** The estimates stay at or below the largest sample, and the timeout within its limits. */
  predicate EstimatorOk(c: Control, largest: int, low: int) {
    && 0 <= c.srtt <= Max(1, largest)
    && 0 <= c.rttval <= Max(1, largest)
    && low <= c.rto <= RTO_MAX
    && low <= c.minrto <= RTO_MIN
    && 10 <= c.interval <= 5000
  }

  lemma UpdateAckKeeps(c: Control, rtt: int, largest: int, low: int)
    requires EstimatorOk(c, largest, low) && 0 <= rtt <= largest
    ensures EstimatorOk(UpdateAck(c, rtt), largest, low)
  {
    var top := Max(1, largest);
    var delta := if rtt >= c.srtt then rtt - c.srtt else c.srtt - rtt;
    assert 0 <= delta <= top;
    assert 0 <= (3 * c.rttval + delta) / 4 <= top;
    assert 0 <= (7 * c.srtt + rtt) / 8 <= top;
  }

  datatype Event = Sample(rtt: int) | Retune(nodelay: int, interval: int, resend: int, nc: int)

  function Estimate(c: Control, events: seq<Event>): Control
    decreases |events|
  {
    if events == [] then c
    else
      Estimate(match events[0]
               case Sample(rtt) => UpdateAck(c, rtt)
               case Retune(nodelay, interval, resend, nc) => SetNodelay(c, nodelay, interval, resend, nc),
               events[1..])
  }

  /** Samples lie between 0 and the largest; low retransmission limits are chosen only if low allows them. */
  predicate EventsOk(events: seq<Event>, largest: int, low: int) {
    forall ev <- events ::
      match ev
      case Sample(rtt) => 0 <= rtt <= largest
      case Retune(nodelay, _, _, _) => nodelay != 0 ==> low <= RTO_NDL
  }

  lemma {:induction false} EstimateKeeps(c: Control, events: seq<Event>, largest: int, low: int)
    requires EstimatorOk(c, largest, low) && EventsOk(events, largest, low)
    ensures EstimatorOk(Estimate(c, events), largest, low)
    decreases |events|
  {
    if events != [] {
      assert events[0] in events;
      assert forall ev <- events[1..] :: ev in events;
      match events[0] {
        case Sample(rtt) =>
          UpdateAckKeeps(c, rtt, largest, low);
          EstimateKeeps(UpdateAck(c, rtt), events[1..], largest, low);
        case Retune(nodelay, interval, resend, nc) =>
          EstimateKeeps(SetNodelay(c, nodelay, interval, resend, nc), events[1..], largest, low);
      }
    }
  }

  /**
   Over any samples and retunings of a new endpoint, the smoothed time and its deviation never exceed the largest
   sample (or 1), and the timeout stays between 30 and 60000 ms: between 100 and 60000 when nodelay is never selected.
   */
  lemma EstimatorBounds(conv: int, config: Config, events: seq<Event>, largest: int)
    requires 0 <= largest && EventsOk(events, largest, RTO_NDL)
    ensures var c := Estimate(Init(conv, config).c, events);
            && 0 <= c.srtt <= Max(1, largest) && 0 <= c.rttval <= Max(1, largest)
            && 30 <= c.rto <= 60000
            && ((forall ev <- events :: ev.Retune? ==> ev.nodelay == 0) ==> 100 <= c.rto)
  {
    EstimateKeeps(Init(conv, config).c, events, largest, RTO_NDL);
    if forall ev <- events :: ev.Retune? ==> ev.nodelay == 0 {
      assert EventsOk(events, largest, RTO_MIN);
      EstimateKeeps(Init(conv, config).c, events, largest, RTO_MIN);
    }
  }

  /** The smoothed time moves towards a sample and never past it. */
  lemma SmoothedBetween(c: Control, rtt: int)
    requires c.srtt >= 1 && rtt >= 1
    ensures var s := UpdateAck(c, rtt).srtt;
            && Min(c.srtt, rtt) <= s <= Max(c.srtt, rtt)
            && (s == c.srtt <==> 0 <= rtt - c.srtt < 8)
  {
  }

  /** The first sample is taken as it is, and half of it as the deviation. */
  lemma FirstSample(c: Control, rtt: int)
    requires c.srtt == 0 && rtt >= 0
    ensures var c' := UpdateAck(c, rtt); c'.srtt == rtt && 2 * c'.rttval <= rtt <= 2 * c'.rttval + 1
  {
  }

  /** How far a sample lies from the smoothed time. */
  function Distance(a: int, b: int): nat { if a >= b then a - b else b - a }

  /**
   The deviation follows the samples: it moves towards a sample's distance from the smoothed time and never past, a
   quarter of the way, and stays where it is exactly when that distance is 0 to 3 ms more.
   */
  lemma DeviationBetween(c: Control, rtt: int)
    requires c.srtt >= 1 && c.rttval >= 0
    ensures var d, v := Distance(rtt, c.srtt), UpdateAck(c, rtt).rttval;
            && Min(c.rttval, d) <= v <= Max(c.rttval, d)
            && 4 * v <= 3 * c.rttval + d <= 4 * v + 3
            && (v == c.rttval <==> 0 <= d - c.rttval < 4)
  {
  }

  /**
   The timeout that a sample leaves behind: the smoothed time and the larger of one interval and four deviations, kept
   between the minimum and 60 seconds.
   */
  lemma TimeoutIs(c: Control, rtt: int)
    requires 0 <= c.minrto <= 60000
    ensures var c' := UpdateAck(c, rtt);
            && c'.minrto <= c'.rto <= 60000
            && (c'.rto <= c'.minrto || c'.rto <= c'.srtt + Max(c.interval, 4 * c'.rttval))
            && (c'.rto == 60000 || (c'.rto >= c'.srtt + c.interval && c'.rto >= c'.srtt + 4 * c'.rttval))
  {
  }

  /**
   So the new timeout covers the sample that gave it but for 3 ms, and all of it when it is a jump of 24 ms or more.
   */
  lemma JumpCovered(c: Control, rtt: int)
    requires c.srtt >= 1 && c.rttval >= 0 && rtt >= c.srtt && 0 <= c.minrto <= 60000 && c.interval >= 0
    ensures var rto := UpdateAck(c, rtt).rto;
            rto == 60000 || (rto >= rtt - 3 && (rtt - c.srtt >= 24 ==> rto >= rtt + 3 * c.rttval))
  {
  }

  function Samples(rtt: int, count: nat): seq<Event> {
    if count == 0 then [] else [Sample(rtt)] + Samples(rtt, count - 1)
  }

  /** A constant round-trip time is learnt at once and kept, and the deviation only shrinks, by a quarter each time. */
  lemma {:induction false} SteadySamples(c: Control, rtt: int, count: nat)
    requires c.srtt == rtt >= 1 && c.rttval >= 0
    ensures var c' := Estimate(c, Samples(rtt, count));
            && c'.srtt == rtt && 0 <= c'.rttval <= c.rttval
            && Pow4(count) * c'.rttval <= Pow3(count) * c.rttval
            && (count > 0 ==> c'.rto == Max(c.minrto, Min(rtt + Max(c.interval, 4 * c'.rttval), RTO_MAX)))
    decreases count
  {
    if count > 0 {
      var c1 := UpdateAck(c, rtt);
      assert Samples(rtt, count)[1..] == Samples(rtt, count - 1);
      SteadySamples(c1, rtt, count - 1);
      QuarterLess(count - 1, c.rttval, c1.rttval, Estimate(c1, Samples(rtt, count - 1)).rttval);
    }
  }

  function Pow4(k: nat): (p: int)
    ensures p >= 1
  {
    if k == 0 then 1 else 4 * Pow4(k - 1)
  }

  function Pow3(k: nat): (p: int)
    ensures p >= 1
  {
    if k == 0 then 1 else 3 * Pow3(k - 1)
  }

  lemma QuarterLess(k: nat, before: int, after: int, last: int)
    requires 4 * after <= 3 * before && Pow4(k) * last <= Pow3(k) * after
    ensures Pow4(k + 1) * last <= Pow3(k + 1) * before
  {
    assert Pow4(k + 1) * last == 4 * (Pow4(k) * last);
    assert 4 * (Pow3(k) * after) == Pow3(k) * (4 * after) <= Pow3(k) * (3 * before);
    assert Pow3(k + 1) * before == Pow3(k) * (3 * before);
  }

  /**
   What tuning means for the timers: nodelay chooses between a least timeout of 30 and of 100 ms, as a short first
   sample shows; the interval is kept between 10 and 5000 ms; and a negative argument leaves its setting as it is.
   */
  lemma TuneIs(c: Control, nodelay: int, interval: int, resend: int, nc: int, rtt: int)
    requires 0 <= rtt <= 10 && c.srtt == 0
    ensures var c1 := SetNodelay(c, nodelay, interval, resend, nc);
            && (0 <= interval <= 10 ==> UpdateAck(c1, rtt).rto == if nodelay != 0 then 30 else 100)
            && (10 <= interval <= 5000 ==> c1.interval == interval) && (interval > 5000 ==> c1.interval == 5000)
            && (interval < 0 ==> c1.interval == c.interval)
            && c1.fastresend == (if resend < 0 then c.fastresend else resend)
            && c1.nocwnd == (if nc < 0 then c.nocwnd else nc) && c1.nodelay == nodelay
            && c1.rto == c.rto && c1.srtt == c.srtt && c1.rttval == c.rttval
  {
  }

  lemma {:induction false} AbsorbAllEstimates(n: Numbering, e: Endpoint, ws: seq<Wire>)
    requires EstimatorOk(e.c, HALF - 1, RTO_NDL)
    ensures EstimatorOk(AbsorbAll(n, e, ws).c, HALF - 1, RTO_NDL)
    decreases |ws|
  {
    if ws != [] {
      var c1 := e.c.(rmtWnd := ws[0].wnd);
      if ws[0].cmd == CMD_ACK && Itimediff(e.c.current, ws[0].ts) >= 0 {
        UpdateAckKeeps(c1, Itimediff(e.c.current, ws[0].ts), HALF - 1, RTO_NDL);
      }
      AbsorbAllEstimates(n, Absorb(n, e, ws[0]), ws[1..]);
    }
  }

  /** The clock, the flush schedule and the estimator. */
  predicate SameTimers(c: Control, c': Control) {
    && c'.current == c.current && c'.interval == c.interval && c'.tsFlush == c.tsFlush
    && c'.updated == c.updated && c'.rto == c.rto && c'.srtt == c.srtt && c'.rttval == c.rttval
    && c'.minrto == c.minrto
  }

  lemma ReactKeepsTimers(n: Numbering, c: Control, s: Sender, mss: int, window: int, fast: nat, lost: nat)
    ensures SameTimers(c, React(n, c, s, mss, window, fast, lost))
  {
  }

  /** A flush leaves the clock and the estimator alone. */
  lemma FlushKeepsClock(n: Numbering, e: Endpoint)
    ensures SameTimers(e.c, Flushed(n, e).c)
  {
    var c := ProbeTimer(e.c).(askSend := false, askTell := false);
    var s := Admitted(n, e);
    var s' := s.(buf := TransmitAll(e.c, StampOf(e), s.buf));
    ReactKeepsTimers(n, c, s', e.Mss(), SendWindow(c),
                     CountReason(e.c, s.buf, Fast), CountReason(e.c, s.buf, Timeout));
  }

  lemma SettleKeepsClock(n: Numbering, e: Endpoint, oldUna: int, m: Mark)
    requires e.Mss() > 0
    ensures var c, c' := e.c, Settle(n, e, oldUna, m).c;
            && c'.interval == c.interval && c'.rto == c.rto && c'.srtt == c.srtt && c'.rttval == c.rttval
            && c'.minrto == c.minrto
  {
  }

  /** Whatever an endpoint does and whatever arrives, its retransmission timeout stays in its limits. */
  lemma ActKeepsEstimator(n: Numbering, p: Peer, q: Peer, a: Action)
    requires p.e.Mss() > 0 && EstimatorOk(p.e.c, HALF - 1, RTO_NDL)
    ensures EstimatorOk(Act(n, p, q, a).e.c, HALF - 1, RTO_NDL)
  {
    match a
    case DoInput(d) =>
      AbsorbAllEstimates(n, p.e, d);
      SettleKeepsClock(n, AbsorbAll(n, p.e, d), p.e.s.una, MarkAll(n, NoAck, d));
    case DoFlush => FlushKeepsClock(n, p.e);
    case DoUpdate(now) => FlushKeepsClock(n, p.e.(c := Tick(p.e.c, now).0));
    case DoTune(nodelay, interval, resend, nc) =>
    case DoSend(data) =>
    case DoRecv =>
  }

  lemma {:induction false} RunKeepsEstimator(n: Numbering, sys: System, moves: seq<Move>)
    requires sys.a.e.Mss() > 0 && sys.b.e.Mss() > 0
    requires EstimatorOk(sys.a.e.c, HALF - 1, RTO_NDL) && EstimatorOk(sys.b.e.c, HALF - 1, RTO_NDL)
    ensures EstimatorOk(Run(n, sys, moves).a.e.c, HALF - 1, RTO_NDL)
    ensures EstimatorOk(Run(n, sys, moves).b.e.c, HALF - 1, RTO_NDL)
    decreases |moves|
  {
    if moves != [] {
      ActKeepsMtu(n, sys.a, sys.b, moves[0].act);
      ActKeepsMtu(n, sys.b, sys.a, moves[0].act);
      ActKeepsEstimator(n, sys.a, sys.b, moves[0].act);
      ActKeepsEstimator(n, sys.b, sys.a, moves[0].act);
      RunKeepsEstimator(n, Next(n, sys, moves[0]), moves[1..]);
    }
  }

  /** In every run of two new endpoints, whatever arrives, timeouts stay between 30 and 60000 ms. */
  lemma RunTimeouts(n: Numbering, conv: int, ca: Config, cb: Config, moves: seq<Move>)
    requires ca.mtu >= 50 && cb.mtu >= 50
    ensures var end := Run(n, NewSystem(conv, ca, cb), moves);
            30 <= end.a.e.c.rto <= 60000 && 30 <= end.b.e.c.rto <= 60000
  {
    RunKeepsEstimator(n, NewSystem(conv, ca, cb), moves);
  }

  // ---------------------------------------------------------------- exponential backoff

  /** A segment that has been sent, and whose time has come by the clock. */
  predicate RunOut(c: Control, seg: Segment) {
    seg.xmit != 0 && Itimediff(c.current, seg.resendts) >= 0
  }

  /** A segment that other acknowledgements have passed often enough to be sent again before its time. */
  predicate PassedOften(c: Control, seg: Segment) {
    seg.fastack >= if c.fastresend > 0 then c.fastresend else 0x7FFF_FFFF
  }

  /** One flush looking at the segment: the true time, the endpoint's timers, and the skips counted meanwhile. */
  datatype Visit = Visit(time: nat, c: Control, st: Stamp, skips: int)

  function Visited(seg: Segment, v: Visit): Segment {
    Transmit(v.c, v.st, seg.(fastack := v.skips))
  }

  function ReasonOf(seg: Segment, v: Visit): Reason {
    Why(v.c, seg.(fastack := v.skips))
  }

  /** The clock shows true time cut to 32 bits, and nodelay is off. */
  predicate VisitOk(v: Visit) {
    v.c.current == U32(v.time) && v.c.nodelay == 0
  }

  /** A segment that has timed out k times since its first transmission at t0 with timeout r0, last touched at t. */
  predicate Backing(seg: Segment, due: int, t: int, t0: int, r0: int, k: nat) {
    && seg.xmit > 0 && seg.resendts == U32(due)
    && Pow2(k) * r0 <= seg.rto < HALF
    && t0 + (Pow2(k) - 1) * r0 <= t
    && t0 + (Pow2(k + 1) - 1) * r0 <= due
    && due - t < HALF
  }

  /** Before a segment is due its timer does not fire. */
  lemma NotDueQuiet(now: int, due: int)
    requires 0 < due - now < HALF
    ensures Itimediff(U32(now), U32(due)) < 0
  {
    ItimediffExact(now, due);
  }

  lemma DoubleBound(p: int, r0: int, rto: int)
    requires p * r0 <= rto
    ensures 2 * p * r0 <= 2 * rto
    ensures (2 * p - 1) * r0 == (p - 1) * r0 + p * r0
    ensures (2 * (2 * p) - 1) * r0 == (2 * p - 1) * r0 + 2 * p * r0
  {
  }

  lemma VisitKeepsBacking(seg: Segment, v: Visit, due: int, t: int, t0: int, r0: int, k: nat)
    returns (due': int, k': nat)
    requires r0 >= 0
    requires Backing(seg, due, t, t0, r0, k) && VisitOk(v) && t <= v.time && Visited(seg, v).rto < HALF
    ensures k' == k + if ReasonOf(seg, v) == Timeout then 1 else 0
    ensures Backing(Visited(seg, v), due', v.time, t0, r0, k')
    ensures ReasonOf(seg, v) == Timeout ==> t0 + (Pow2(k') - 1) * r0 <= v.time
  {
    DoubleBound(Pow2(k), r0, seg.rto);
    if due > v.time {
      NotDueQuiet(v.time, due);
    }
    match ReasonOf(seg, v)
    case Quiet => due', k' := due, k;
    case Timeout =>
      due', k' := v.time + Visited(seg, v).rto, k + 1;
      DoubleBound(Pow2(k'), r0, Visited(seg, v).rto);
      U32Add(v.time, Visited(seg, v).rto);
    case Fast =>
      due', k' := v.time + seg.rto, k;
      U32Add(v.time, seg.rto);
  }

  lemma U32Add(t: int, k: int)
    ensures U32(U32(t) + k) == U32(t + k)
  {
    ShiftResidue(U32(t) + k, t / M32);
  }

  lemma DivAtLeast(a: int, m: int, q: int)
    requires m > 0 && q * m <= a
    ensures q <= a / m
  {
    assert a == (a / m) * m + a % m;
    assert (q - a / m) * m <= a % m;
    MulAtLeast(q - a / m, m);
  }

  // ---------------------------------------------------------------- update and check

  /** How far the clock is past the flush time, as `update` sees it. */
  function Slap(c: Control, now: int): int {
    Itimediff(U32(now), c.tsFlush)
  }

  /** `update` flushes the first time, when the flush time has come, and when the clock has jumped. */
  lemma UpdateFlushesIff(c: Control, now: int)
    ensures Tick(c, now).1 <==> !c.updated || Slap(c, now) >= 0 || Slap(c, now) < -10000
  {
    ItimediffExact(U32(now), U32(now));
    assert U32(U32(now) - U32(now)) == 0;
  }

  /** Whenever `update` would flush now, `check` says now. */
  lemma CheckPredictsFlush(c: Control, buf: seq<Segment>, now: int)
    requires Tick(c, now).1
    ensures Check(c, buf, now) == U32(now)
  {
    UpdateFlushesIff(c, now);
    SlapSwap(c, now);
  }

  lemma SlapSwap(c: Control, now: int)
    ensures Itimediff(c.tsFlush, U32(now)) == if Slap(c, now) == -HALF then -HALF else -Slap(c, now)
  {
    var t := U32(now);
    if Slap(c, now) == -HALF {
      var k := Cycles(t, c.tsFlush);
      assert c.tsFlush - t == -HALF + M32 * (1 - k);
      ShiftResidue(-HALF, 1 - k);
      ItimediffExact(-HALF, 0);
    } else {
      DiffSwap(Wrapping, t, c.tsFlush);
    }
  }

  predicate Due(seg: Segment, t: int) {
    Itimediff(seg.resendts, t) <= 0
  }

  lemma {:induction false} SoonestIs(buf: seq<Segment>, t: int)
    ensures Soonest(buf, t).None? <==> exists seg <- buf :: Due(seg, t)
    ensures Soonest(buf, t).Some? ==>
      && (forall seg <- buf :: Soonest(buf, t).value <= Itimediff(seg.resendts, t))
      && (Soonest(buf, t).value == NEVER || exists seg <- buf :: Soonest(buf, t).value == Itimediff(seg.resendts, t))
    decreases |buf|
  {
    if buf != [] {
      var k := |buf| - 1;
      SoonestIs(buf[..k], t);
      assert buf == buf[..k] + [buf[k]];
      assert buf[k] in buf;
    }
  }

  lemma AddAhead(t: int, d: int)
    requires 0 <= d < HALF && 0 <= t < M32
    ensures Itimediff(U32(t + d), t) == d
    ensures d > 0 ==> U32(t + d) != t
  {
    ItimediffExact(t + d, t);
    DiffNorm(Wrapping, t + d, t);
    if U32(t + d) == t {
      SameResidue(t + d, t);
    }
  }

  /**
   The exact answer of `check`: now, when a flush or a segment is due or the flush time is 10 s or more away in either
   direction; otherwise the nearest of the flush time, the segments' times and one interval, and never past any.
   */
  lemma CheckAnswers(c: Control, buf: seq<Segment>, now: int)
    requires 10 <= c.interval <= 5000
    ensures var t, r, slap := U32(now), Check(c, buf, now), Slap(c, now);
            var ahead := Itimediff(r, t);
            && (r == t <==> !c.updated || slap >= 0 || slap <= -10000 || exists seg <- buf :: Due(seg, t))
            && 0 <= ahead <= c.interval
            && (r != t ==>
                  && 0 < ahead <= Itimediff(c.tsFlush, t)
                  && (forall seg <- buf :: ahead <= Itimediff(seg.resendts, t))
                  && (ahead == c.interval || ahead == Itimediff(c.tsFlush, t)
                      || exists seg <- buf :: ahead == Itimediff(seg.resendts, t)))
  {
    var t := U32(now);
    SlapSwap(c, now);
    SoonestIs(buf, t);
    AddAhead(t, 0);
    match Soonest(buf, t)
    case None =>
    case Some(d) =>
      var wait := Itimediff(c.tsFlush, t);
      if c.updated && 0 < wait < 10000 {
        AddAhead(t, Min(Min(d, wait), c.interval));
      }
  }

  /**
   Without a segment due, `check` says now although `update` would not flush in exactly one case: the flush time is
   10000 ms ahead, which `check` counts as a jump of the clock and `update` does not.
   */
  lemma CheckDisagrees(c: Control, buf: seq<Segment>, now: int)
    requires 10 <= c.interval <= 5000 && !exists seg <- buf :: Due(seg, U32(now))
    ensures Check(c, buf, now) == U32(now) && !Tick(c, now).1 <==> c.updated && Slap(c, now) == -10000
  {
    CheckAnswers(c, buf, now);
    UpdateFlushesIff(c, now);
  }

  /** An endpoint updated at 9990 ms with an interval of 10 ms, and then asked about time 0. */
  lemma CheckDisagreesOnce(conv: int, config: Config)
    requires config.interval == 10
    ensures var c := Tick(Init(conv, config).c, 9990).0;
            Check(c, [], 0) == U32(0) && !Tick(c, 0).1
  {
    var c := Tick(Init(conv, config).c, 9990).0;
    assert c.updated && c.tsFlush == 10000;
    CheckDisagrees(c, [], 0);
  }

  /** The flush time that `update` sets lies in the future, at most one interval away. */
  lemma NextFlushAhead(c: Control, now: int)
    requires 10 <= c.interval <= 5000 && Tick(c, now).1
    ensures 0 < Itimediff(Tick(c, now).0.tsFlush, U32(now)) <= c.interval
  {
    var t := U32(now);
    var start := if c.updated then c.tsFlush else t;
    var slap := Itimediff(t, start);
    AddAhead(t, c.interval);
    AddAhead(t, 0);
    if 0 <= slap < 10000 {
      DiffMinus(Wrapping, t, start, c.interval);
      if slap < c.interval {
        DiffSwap(Wrapping, t, U32(start + c.interval));
      }
    }
  }

  /**
   One call of `update` in true time, when a flush is scheduled for time f: it flushes exactly from f on, and the next
   flush is then one interval after f, or one interval from now when the call is a whole interval late.
   */
  lemma NextFlushTime(c: Control, now: int, f: int)
    requires c.updated && c.tsFlush == U32(f) && 10 <= c.interval <= 5000 && -10000 <= now - f < 10000
    ensures Tick(c, now).1 <==> now >= f
    ensures Tick(c, now).0.tsFlush
            == U32(if now < f then f else if now < f + c.interval then f + c.interval else now + c.interval)
  {
    ItimediffExact(now, f);
    U32Add(f, c.interval);
    U32Add(now, c.interval);
    ItimediffExact(now, f + c.interval);
  }

  /** The first call of `update` flushes, whatever the time, and `check` says so; the schedule starts there. */
  lemma FirstUpdate(conv: int, config: Config, buf: seq<Segment>, now: int)
    ensures var c := Init(conv, config).c;
            && Tick(c, now).1 && Check(c, buf, now) == U32(now)
            && Tick(c, now).0.tsFlush == U32(now + c.interval) && Tick(c, now).0.updated
  {
    var c := Init(conv, config).c;
    ItimediffExact(now, now);
    ItimediffExact(now, now + c.interval);
    U32Add(now, c.interval);
  }

  /** A clock that has jumped by 10 seconds or more starts the schedule afresh. */
  lemma FlushAfterJump(c: Control, now: int, f: int)
    requires c.updated && c.tsFlush == U32(f) && 10 <= c.interval <= 5000
    requires -HALF <= now - f < -10000 || 10000 <= now - f < HALF
    ensures Tick(c, now).1 && Tick(c, now).0.tsFlush == U32(now + c.interval)
  {
    ItimediffExact(now, f);
    U32Add(now, c.interval);
    ItimediffExact(now, now + c.interval);
  }

  /** Calls of `update`: how many of them flush, and the clock they leave. */
  function Updates(c: Control, times: seq<int>): (Control, nat)
    decreases |times|
  {
    if times == [] then (c, 0)
    else
      var (c1, due) := Tick(c, times[0]);
      var (c2, more) := Updates(c1, times[1..]);
      (c2, more + if due then 1 else 0)
  }

  /** Calls none of which comes a whole interval after a flush is due, or long before. */
  predicate InTime(f: int, interval: int, times: seq<int>)
    decreases |times|
  {
    times == [] || (
      && f - 10000 <= times[0] < f + interval
      && InTime(if times[0] >= f then f + interval else f, interval, times[1..]))
  }

  /**
   No drift: as long as no call is a whole interval late, the flushes are due at f, f + interval, f + 2 * interval...
   */
  lemma {:induction false} FlushesOnGrid(c: Control, times: seq<int>, f: int)
    requires c.updated && c.tsFlush == U32(f) && 10 <= c.interval <= 5000 && InTime(f, c.interval, times)
    ensures var (c', flushes) := Updates(c, times);
            c'.tsFlush == U32(f + flushes * c.interval) && c'.updated && c'.interval == c.interval
    decreases |times|
  {
    if times != [] {
      var now := times[0];
      NextFlushTime(c, now, f);
      FlushesOnGrid(Tick(c, now).0, times[1..], if now >= f then f + c.interval else f);
      OneMore(Updates(Tick(c, now).0, times[1..]).1, c.interval);
    }
  }

  lemma OneMore(k: int, interval: int)
    ensures (k + 1) * interval == k * interval + interval
  {
  }

  /** A segment that a flush leaves waiting although the clock cannot tell that it is: exactly half a cycle away. */
  predicate HalfAway(c: Control, seg: Segment) {
    Why(c, seg) == Quiet && Itimediff(seg.resendts, c.current) == -HALF
  }

  /** After a flush at time t a segment is due again only if its time is exactly half a cycle away. */
  lemma TransmittedNotDue(c: Control, st: Stamp, seg: Segment)
    requires 0 <= c.current < M32
    requires 0 < c.rto <= RTO_MAX && 0 < Transmit(c, st, seg).rto < HALF
    ensures Due(Transmit(c, st, seg), c.current) <==> HalfAway(c, seg)
  {
    var t := c.current;
    match Why(c, seg)
    case Quiet =>
      if Itimediff(t, seg.resendts) == -HALF {
        var k := Cycles(t, seg.resendts);
        assert seg.resendts - t == -HALF + M32 * (1 - k);
        ShiftResidue(-HALF, 1 - k);
        ItimediffExact(-HALF, 0);
      } else {
        DiffSwap(Wrapping, t, seg.resendts);
      }
    case First => AddAhead(t, c.rto + RtoMin(c));
    case Timeout => AddAhead(t, Transmit(c, st, seg).rto);
    case Fast => AddAhead(t, seg.rto);
  }

  /** Timers of a flush that takes place at this moment. */
  predicate TimersOk(e: Endpoint, buf: seq<Segment>) {
    && 10 <= e.c.interval <= 5000 && 0 < e.c.rto <= RTO_MAX
    && forall seg <- buf :: 0 < Transmit(e.c, StampOf(e), seg).rto < HALF
  }

  /**
   After `update` has flushed, `check` at the same moment answers a strictly later time, with retransmission timeouts
   below 2^31 ms, exactly when no segment it left waiting is exactly half a clock cycle away.
   */
  lemma CheckLaterAfterFlush(n: Numbering, e: Endpoint, now: int)
    requires Tick(e.c, now).1
    requires var e1 := e.(c := Tick(e.c, now).0); TimersOk(e1, Admitted(n, e1).buf)
    ensures var e1 := e.(c := Tick(e.c, now).0);
            var e2 := Flushed(n, e1);
            0 < Itimediff(Check(e2.c, e2.s.buf, now), U32(now))
            <==> !exists seg <- Admitted(n, e1).buf :: HalfAway(e1.c, seg)
  {
    var t := U32(now);
    var e1 := e.(c := Tick(e.c, now).0);
    var e2 := Flushed(n, e1);
    var buf := Admitted(n, e1).buf;
    FlushKeepsClock(n, e1);
    NextFlushAhead(e.c, now);
    DueAfter(e1.c, StampOf(e1), buf);
    CheckAnswers(e2.c, e2.s.buf, now);
    SlapSwap(e2.c, now);
    AddAhead(t, 0);
    DiffZero(Wrapping, Check(e2.c, e2.s.buf, now), t);
  }

  /** An answer that is not later is now. */
  lemma AfterNow(e: Endpoint, now: int)
    requires 10 <= e.c.interval <= 5000
    requires Itimediff(Check(e.c, e.s.buf, now), U32(now)) <= 0
    ensures Check(e.c, e.s.buf, now) == U32(now)
  {
    CheckAnswers(e.c, e.s.buf, now);
    DiffZero(Wrapping, Check(e.c, e.s.buf, now), U32(now));
  }

  lemma DueAfter(c: Control, st: Stamp, buf: seq<Segment>)
    requires 0 <= c.current < M32 && 0 < c.rto <= RTO_MAX
    requires forall seg <- buf :: 0 < Transmit(c, st, seg).rto < HALF
    ensures (exists seg <- TransmitAll(c, st, buf) :: Due(seg, c.current)) <==> exists seg <- buf :: HalfAway(c, seg)
  {
    var after := TransmitAll(c, st, buf);
    forall i | 0 <= i < |buf|
      ensures Due(after[i], c.current) <==> HalfAway(c, buf[i])
      ensures buf[i] in buf && after[i] in after
    {
      TransmittedNotDue(c, st, buf[i]);
    }
  }
}
