/** What one flush does, written out. */
module KcpFlush {
  // Which segments it numbers, which it puts on the wire and with what timers, when it probes a shut window, and what
  // congestion control makes of it (tuya_p2p/_kcp_python.py:478-574).

  import opened Bytes
  import opened Serial
  import opened KcpModel
  import opened KcpReceive
  import opened KcpSend
  import opened KcpSystem
  import opened KcpTiming

  // ---------------------------------------------------------------- how many new segments

  /** The window is the least of the send window, the peer's and, unless it is switched off, the congestion window. */
  predicate IsWindow(c: Control, w: int) {
    && w <= c.sndWnd && w <= c.rmtWnd && (c.nocwnd == 0 ==> w <= c.cwnd)
    && (w == c.sndWnd || w == c.rmtWnd || (c.nocwnd == 0 && w == c.cwnd))
  }

  /** Numbering takes from the queue exactly what the window has room for. */
  lemma {:induction false} AdmitFills(n: Numbering, s: Sender, st: Stamp, window: int, rto: int)
    requires 0 <= Span(n, s) < HALF / 2 && 0 <= window < HALF / 2
    ensures var s', m := Admit(n, s, st, window, rto), Max(0, Min(|s.queue|, window - Span(n, s)));
            s'.queue == s.queue[m..] && |s'.buf| == |s.buf| + m && s.buf <= s'.buf
    decreases |s.queue|
  {
    DiffMinus(n, s.nxt, s.una, window);
    if Diff(n, s.nxt, Norm(n, s.una + window)) < 0 && s.queue != [] {
      DiffPlus(n, s.nxt, s.una, 1);
      var s1 := s.(queue := s.queue[1..], nxt := Norm(n, s.nxt + 1),
                   buf := s.buf + [Numbered(s.queue[0], st, s.nxt, rto)]);
      AdmitFills(n, s1, st, window, rto);
      assert s.buf <= s1.buf;
    }
  }

  /**
   A flush numbers as many queued segments as fit: afterwards the queue is empty, or as many numbers are in use as the
   window has, or more if it has shrunk.
   */
  lemma FlushFills(n: Numbering, e: Endpoint, w: int)
    requires SendOk(n, e.s, WIDEST) && ControlOk(e.c) && IsWindow(e.c, w)
    ensures var s, s' := e.s, Flushed(n, e).s;
            var m := Max(0, Min(|s.queue|, w - Span(n, s)));
            && s'.queue == s.queue[m..] && |s'.buf| == |s.buf| + m && s'.una == s.una
            && Span(n, s') == Span(n, s) + m
  {
    ProbesKeepWindow(e.c);
    AdmitFills(n, e.s, StampOf(e), w, e.c.rto);
    AdmitSpan(n, e.s, StampOf(e), w, e.c.rto);
  }

  lemma {:induction false} AdmitSpan(n: Numbering, s: Sender, st: Stamp, window: int, rto: int)
    requires 0 <= Span(n, s) < HALF / 2 && 0 <= window < HALF / 2
    ensures var s' := Admit(n, s, st, window, rto);
            s'.una == s.una && Span(n, s') == Span(n, s) + Max(0, Min(|s.queue|, window - Span(n, s)))
    decreases |s.queue|
  {
    DiffMinus(n, s.nxt, s.una, window);
    if Diff(n, s.nxt, Norm(n, s.una + window)) < 0 && s.queue != [] {
      DiffPlus(n, s.nxt, s.una, 1);
      AdmitSpan(n, s.(queue := s.queue[1..], nxt := Norm(n, s.nxt + 1),
                      buf := s.buf + [Numbered(s.queue[0], st, s.nxt, rto)]), st, window, rto);
    }
  }

  /**
   With congestion control the window of a new endpoint is empty: its first flush sends no data, whatever is queued, and
   only the next one the first segment.
   */
  lemma FirstFlushWaits(n: Numbering, conv: int, config: Config, queue: seq<Segment>)
    requires ConfigOk(config) && config.nc == 0 && queue != []
    ensures var e := Init(conv, config);
            var e1 := Flushed(n, e.(s := e.s.(queue := queue)));
            && e1.s.queue == queue && e1.s.buf == []
            && Flushed(n, e1).s.queue == queue[1..] && |Flushed(n, e1).s.buf| == 1
  {
    var e := Init(conv, config).(s := Init(conv, config).s.(queue := queue));
    var e1 := Flushed(n, e);
    EmptyOk(n, e);
    FlushFills(n, e, 0);
    FlushKeepsSendOk(n, e, WIDEST);
    FirstWindow(n, e);
    FlushControlOk(n, e);
    FlushFills(n, e1, 1);
  }

  lemma EmptyOk(n: Numbering, e: Endpoint)
    requires e.s.una == 0 && e.s.nxt == 0 && e.s.buf == []
    ensures SendOk(n, e.s, WIDEST) && Span(n, e.s) == 0
  {
  }

  lemma FirstWindow(n: Numbering, e: Endpoint)
    requires e.c.cwnd == 0 && e.c.rmtWnd == WND_RCV && e.c.nocwnd == 0 && e.c.sndWnd >= 1 && e.s.buf == []
    requires Admitted(n, e).buf == []
    ensures IsWindow(Flushed(n, e).c, 1)
  {
  }

  lemma NormAdd(n: Numbering, v: int, k: int)
    ensures Norm(n, Norm(n, v) + k) == Norm(n, v + k)
  {
    if n.Wrapping? {
      U32Add(v, k);
    }
  }

  /** The new ones are the front of the queue, numbered from the next number on, and have not been sent. */
  lemma {:induction false} AdmitNumbers(n: Numbering, s: Sender, st: Stamp, window: int, rto: int, k: nat)
    requires Storable(n, s.nxt) && |s.buf| + k < |Admit(n, s, st, window, rto).buf|
    ensures var seg := Admit(n, s, st, window, rto).buf[|s.buf| + k];
            && k < |s.queue| && seg.sn == Norm(n, s.nxt + k) && seg.Content() == s.queue[k].Content()
            && seg.xmit == 0 && seg.fastack == 0 && seg.cmd == CMD_PUSH
    decreases |s.queue|
  {
    NormHolds(n, s.nxt);
    if Diff(n, s.nxt, Norm(n, s.una + window)) < 0 && s.queue != [] {
      var seg := Numbered(s.queue[0], st, s.nxt, rto);
      var s1 := s.(queue := s.queue[1..], nxt := Norm(n, s.nxt + 1), buf := s.buf + [seg]);
      NormHolds(n, s.nxt + 1);
      if k > 0 {
        NormAdd(n, s.nxt + 1, k - 1);
        AdmitNumbers(n, s1, st, window, rto, k - 1);
      } else {
        AdmitPrefix(n, s1, st, window, rto);
        assert s1.buf[|s.buf|] == seg;
      }
    }
  }

  lemma {:induction false} AdmitPrefix(n: Numbering, s: Sender, st: Stamp, window: int, rto: int)
    ensures s.buf <= Admit(n, s, st, window, rto).buf
    decreases |s.queue|
  {
    if Diff(n, s.nxt, Norm(n, s.una + window)) < 0 && s.queue != [] {
      AdmitPrefix(n, s.(queue := s.queue[1..], nxt := Norm(n, s.nxt + 1),
                        buf := s.buf + [Numbered(s.queue[0], st, s.nxt, rto)]), st, window, rto);
    }
  }

  // ---------------------------------------------------------------- which segments go out

  /** The flush emits a data segment with this number and content, under the current time. */
  predicate GoesOut(n: Numbering, e: Endpoint, seg: Segment) {
    exists x <- Emitted(n, e) ::
      && x.cmd == CMD_PUSH && x.sn == seg.sn && x.Content() == seg.Content()
      && x.ts == e.c.current && x.una == e.r.nxt
  }

  lemma {:induction false} OutgoingHolds(c: Control, st: Stamp, buf: seq<Segment>, i: nat)
    requires i < |buf| && Why(c, buf[i]) != Quiet
    ensures Transmit(c, st, buf[i]) in Outgoing(c, st, buf)
  {
    if i > 0 {
      OutgoingHolds(c, st, buf[1..], i - 1);
    }
  }

  /** A segment of the send buffer goes out when it is new, when its time has come, and when it was passed often. */
  lemma GoesOutIff(n: Numbering, e: Endpoint, i: nat)
    requires SendOk(n, e.s, WIDEST) && ControlOk(e.c) && forall seg <- e.s.buf :: seg.cmd == CMD_PUSH
    requires i < |Admitted(n, e).buf|
    ensures var seg := Admitted(n, e).buf[i];
            GoesOut(n, e, seg) <==> seg.xmit == 0 || RunOut(e.c, seg) || PassedOften(e.c, seg)
  {
    var st, buf := StampOf(e), Admitted(n, e).buf;
    var seg := buf[i];
    AdmitCommands(n, e.s, st, SendWindow(ProbeTimer(e.c)), e.c.rto);
    assert seg in buf;
    if Why(e.c, seg) != Quiet {
      OutgoingHolds(e.c, st, buf, i);
      assert Transmit(e.c, st, seg) in Emitted(n, e);
    }
    if GoesOut(n, e, seg) {
      var x :| x in Emitted(n, e) && x.cmd == CMD_PUSH && x.sn == seg.sn;
      var j := SentFrom(n, e, x);
      OneOfANumber(n, e, i, j);
    }
  }

  /** A data segment that is emitted comes from the send buffer. */
  lemma SentFrom(n: Numbering, e: Endpoint, x: Segment) returns (j: nat)
    requires x in Emitted(n, e) && x.cmd == CMD_PUSH
    ensures var buf := Admitted(n, e).buf; j < |buf| && Why(e.c, buf[j]) != Quiet && x.sn == buf[j].sn
  {
    var st, buf := StampOf(e), Admitted(n, e).buf;
    OutgoingMembers(e.c, st, buf);
    assert x in Outgoing(e.c, st, buf);
    j :| 0 <= j < |buf| && Why(e.c, buf[j]) != Quiet && x == Transmit(e.c, st, buf[j]);
  }

  lemma OneOfANumber(n: Numbering, e: Endpoint, i: nat, j: nat)
    requires SendOk(n, e.s, WIDEST) && ControlOk(e.c) && i < |Admitted(n, e).buf| && j < |Admitted(n, e).buf|
    ensures Admitted(n, e).buf[i].sn == Admitted(n, e).buf[j].sn ==> i == j
  {
    ProbesKeepWindow(e.c);
    AdmitKeeps(n, e.s, WIDEST, StampOf(e), SendWindow(e.c), e.c.rto);
    var s := Admitted(n, e);
    if i < j {
      assert Ahead(n, s, s.buf[i].sn) < Ahead(n, s, s.buf[j].sn);
    } else if j < i {
      assert Ahead(n, s, s.buf[j].sn) < Ahead(n, s, s.buf[i].sn);
    }
  }

  /**
   The order of what goes out: first the acknowledgements, as they were noted, then the probes, and then the data in the
   order of the send buffer.
   */
  predicate Ordering(n: Numbering, e: Endpoint, x: Segment, y: Segment) {
    && (y.cmd == CMD_ACK ==> x.cmd == CMD_ACK) && (x.cmd == CMD_PUSH ==> y.cmd == CMD_PUSH)
    && (x.cmd == CMD_WINS ==> y.cmd != CMD_WASK)
    && (x.cmd == CMD_PUSH && y.cmd == CMD_PUSH ==>
          exists i, j :: 0 <= i < j < |Admitted(n, e).buf|
            && x.sn == Admitted(n, e).buf[i].sn && y.sn == Admitted(n, e).buf[j].sn)
  }

  lemma {:induction false} OutgoingOrder(c: Control, st: Stamp, buf: seq<Segment>, a: nat, b: nat)
    returns (i: nat, j: nat)
    requires a < b < |Outgoing(c, st, buf)|
    ensures i < j < |buf| && Outgoing(c, st, buf)[a].sn == buf[i].sn && Outgoing(c, st, buf)[b].sn == buf[j].sn
  {
    var rest := Outgoing(c, st, buf[1..]);
    if Why(c, buf[0]) == Quiet {
      i, j := OutgoingOrder(c, st, buf[1..], a, b);
      i, j := i + 1, j + 1;
    } else if a > 0 {
      i, j := OutgoingOrder(c, st, buf[1..], a - 1, b - 1);
      i, j := i + 1, j + 1;
    } else {
      i := 0;
      var k := OutgoingFrom(c, st, buf[1..], b - 1);
      j := k + 1;
    }
  }

  lemma {:induction false} OutgoingFrom(c: Control, st: Stamp, buf: seq<Segment>, b: nat) returns (j: nat)
    requires b < |Outgoing(c, st, buf)|
    ensures j < |buf| && Outgoing(c, st, buf)[b].sn == buf[j].sn
  {
    if Why(c, buf[0]) != Quiet && b == 0 {
      j := 0;
    } else {
      var k := OutgoingFrom(c, st, buf[1..], if Why(c, buf[0]) == Quiet then b else b - 1);
      j := k + 1;
    }
  }

  lemma FlushOrder(n: Numbering, e: Endpoint, a: nat, b: nat)
    requires a < b < |Emitted(n, e)| && forall seg <- e.s.buf :: seg.cmd == CMD_PUSH
    ensures Ordering(n, e, Emitted(n, e)[a], Emitted(n, e)[b])
    ensures b < |e.r.acks| ==> Emitted(n, e)[b].cmd == CMD_ACK && Emitted(n, e)[b].sn == e.r.acks[b].0
  {
    var st, c := StampOf(e), ProbeTimer(e.c);
    AdmitCommands(n, e.s, st, SendWindow(c), e.c.rto);
    DataOnly(e.c, st, Admitted(n, e).buf);
    var k := |e.r.acks| + |ProbeSegments(st, c)|;
    if a >= k {
      var i, j := OutgoingOrder(e.c, st, Admitted(n, e).buf, a - k, b - k);
    } else {
      HeadOrder(AckSegments(st, e.r.acks), ProbeSegments(st, c), Outgoing(e.c, st, Admitted(n, e).buf), a, b);
    }
  }

  lemma HeadOrder(acks: seq<Segment>, probes: seq<Segment>, data: seq<Segment>, a: nat, b: nat)
    requires a < |acks| + |probes| && a < b < |acks| + |probes| + |data|
    requires (forall x <- acks :: x.cmd == CMD_ACK) && (forall x <- data :: x.cmd == CMD_PUSH)
    requires forall x <- probes :: x.cmd == CMD_WASK || x.cmd == CMD_WINS
    requires |probes| <= 2 && (|probes| == 2 ==> probes[0].cmd == CMD_WASK && probes[1].cmd == CMD_WINS)
    ensures var all := acks + probes + data;
            && (all[b].cmd == CMD_ACK ==> all[a].cmd == CMD_ACK) && all[a].cmd != CMD_PUSH
            && (all[a].cmd == CMD_WINS ==> all[b].cmd != CMD_WASK)
  {
    var all := acks + probes + data;
    assert all[a] in (if a < |acks| then acks else probes);
    assert all[b] in (if b < |acks| then acks else if b < |acks| + |probes| then probes else data);
  }

  /**
   And its timers afterwards. A new segment waits for the estimated timeout, and an eighth more when nodelay is off; one
   that was passed often waits for its own timeout again, its count back at 0; one whose time had come waits for its
   longer timeout, its count as before; any other is left as it is.
   */
  lemma FlushTimers(n: Numbering, e: Endpoint, i: nat) returns (extra: int)
    requires i < |Admitted(n, e).buf|
    ensures var seg, seg' := Admitted(n, e).buf[i], Flushed(n, e).s.buf[i];
            && seg'.sn == seg.sn && seg'.Content() == seg.Content()
            && (seg.xmit == 0 ==>
                  && seg'.xmit == 1 && seg'.rto == e.c.rto
                  && seg'.resendts == U32(e.c.current + e.c.rto + extra)
                  && (if e.c.nodelay == 0 then 8 * extra <= e.c.rto < 8 * extra + 8 else extra == 0))
            && (RunOut(e.c, seg) ==>
                  && seg'.xmit == seg.xmit + 1 && seg'.fastack == seg.fastack
                  && seg'.resendts == U32(e.c.current + seg'.rto)
                  && (e.c.nodelay == 0 ==> seg'.rto == Max(2 * seg.rto, seg.rto + e.c.rto))
                  && (e.c.nodelay != 0 ==> 2 * (seg'.rto - seg.rto) <= e.c.rto <= 2 * (seg'.rto - seg.rto) + 1))
            && (seg.xmit != 0 && !RunOut(e.c, seg) && PassedOften(e.c, seg) ==>
                  && seg'.xmit == seg.xmit + 1 && seg'.fastack == 0 && seg'.rto == seg.rto
                  && seg'.resendts == U32(e.c.current + seg.rto))
            && (seg.xmit != 0 && !RunOut(e.c, seg) && !PassedOften(e.c, seg) ==> seg' == seg)
  {
    var seg := Admitted(n, e).buf[i];
    extra := if e.c.nodelay == 0 then e.c.rto / 8 else 0;
    assert Flushed(n, e).s.buf[i] == Transmit(e.c, StampOf(e), seg);
    assert e.c.current + e.c.rto + extra == e.c.current + e.c.rto + RtoMin(e.c);
  }

  // ---------------------------------------------------------------- probing a shut window

  /** The wait before a probe when j have been sent: 7 seconds, then half as long again each time, at most 2 minutes. */
  function Wait(j: nat): (ms: nat)
    ensures 7000 <= ms <= 120000
  {
    if j == 0 then 7000 else Min(120000, Wait(j - 1) + Wait(j - 1) / 2)
  }

  lemma Waits()
    ensures Wait(1) == 10500 && Wait(2) == 15750 && Wait(3) == 23625 && Wait(4) == 35437 && Wait(5) == 53155
    ensures Wait(6) == 79732 && Wait(7) == 119598 && Wait(8) == 120000 && Wait(9) == 120000
  {
    assert Wait(3) == 23625;
    assert Wait(6) == 79732;
  }

  function WaitSum(from: nat, count: nat): nat
    decreases count
  {
    if count == 0 then 0 else Wait(from) + WaitSum(from + 1, count - 1)
  }

  /** The control block as congestion control finds it. */
  function Probed(c: Control): Control { ProbeTimer(c).(askSend := false, askTell := false) }

  /** Flushes at these times while the peer's window stays shut: what they leave, and how many probes they send. */
  function ShutFlushes(c: Control, times: seq<int>): (Control, nat)
    decreases |times|
  {
    if times == [] then (c, 0)
    else
      var at := c.(current := U32(times[0]));
      var (c', more) := ShutFlushes(Probed(at), times[1..]);
      (c', more + if ProbeTimer(at).askSend then 1 else 0)
  }

  /** Flushes one after the other, each less than `gap` after the one before. */
  predicate Regular(from: int, times: seq<int>, gap: int)
    decreases |times|
  {
    times == [] || (from <= times[0] < from + gap && Regular(times[0], times[1..], gap))
  }

  function EndOf(from: int, times: seq<int>): int { if times == [] then from else times[|times| - 1] }

  /** A sender that has sent j probes, the last at time `last`, and has flushed at time `now` since. */
  predicate Probing(c: Control, j: nat, last: int, now: int) {
    && c.rmtWnd == 0 && !c.askSend && c.probeWait == Wait(j) && c.tsProbe == U32(last + Wait(j))
    && last <= now < last + Wait(j)
  }

  /** The first flush that finds the window shut starts the schedule. */
  lemma ProbingStarts(c: Control, now: int)
    requires c.rmtWnd == 0 && c.probeWait == 0 && !c.askSend && c.current == U32(now)
    ensures Probing(Probed(c), 0, now, now) && !ProbeTimer(c).askSend
  {
    U32Add(now, 7000);
  }

  /** A flush that finds it open stops the timer, so that the next schedule begins with the first wait again. */
  lemma ProbingStops(c: Control, now: int)
    requires c.rmtWnd > 0 && !c.askSend
    ensures var c' := Probed(c).(rmtWnd := 0, current := U32(now));
            Probed(c).probeWait == 0 && !ProbeTimer(c).askSend && Probing(Probed(c'), 0, now, now)
  {
    ProbingStarts(Probed(c).(rmtWnd := 0, current := U32(now)), now);
  }

  lemma ProbingStep(c: Control, j: nat, last: int, from: int, now: int)
    requires Probing(c, j, last, from) && from <= now < from + HALF / 2
    ensures var at := c.(current := U32(now));
            && (ProbeTimer(at).askSend <==> now >= last + Wait(j))
            && (now >= last + Wait(j) ==> Probing(Probed(at), j + 1, now, now))
            && (now < last + Wait(j) ==> Probing(Probed(at), j, last, now))
  {
    ItimediffExact(now, last + Wait(j));
    U32Add(now, Wait(j + 1));
  }

  /** Some waits in a row, each with less than `gap` more until the next flush. */
  predicate Delayed(time: int, waits: nat, count: nat, gap: nat) { waits <= time <= waits + count * gap }

  lemma DelayedMore(first: int, rest: int, j: nat, count: nat, gap: nat)
    requires Wait(j) <= first <= Wait(j) + gap && Delayed(rest, WaitSum(j + 1, count), count, gap)
    ensures Delayed(first + rest, WaitSum(j, count + 1), count + 1, gap)
  {
    OneMore(count, gap);
  }

  /**
   While the window stays shut, the next probes leave after the waits above, each with the first flush that comes then.
   */
  lemma {:induction false} ProbeSchedule(c: Control, times: seq<int>, j: nat, last: int, from: int, gap: nat)
    returns (last': int)
    requires Probing(c, j, last, from) && gap <= HALF / 2 && Regular(from, times, gap)
    ensures var (c', count) := ShutFlushes(c, times);
            && Probing(c', j + count, last', EndOf(from, times))
            && Delayed(last' - last, WaitSum(j, count), count, gap)
    decreases |times|
  {
    last' := last;
    if times != [] {
      var now, at := times[0], c.(current := U32(times[0]));
      ProbingStep(c, j, last, from, now);
      if now >= last + Wait(j) {
        last' := ProbeSchedule(Probed(at), times[1..], j + 1, now, now, gap);
        DelayedMore(now - last, last' - now, j, ShutFlushes(Probed(at), times[1..]).1, gap);
      } else {
        last' := ProbeSchedule(Probed(at), times[1..], j, last, now, gap);
      }
      assert EndOf(from, times) == EndOf(now, times[1..]);
    }
  }

  lemma DataOnly(c: Control, st: Stamp, buf: seq<Segment>)
    requires forall seg <- buf :: seg.cmd == CMD_PUSH
    ensures forall x <- Outgoing(c, st, buf) :: x.cmd == CMD_PUSH
  {
    OutgoingMembers(c, st, buf);
  }

  /** Those are the probes of whole flushes; what the peer asked for is told once, and then there is no more to say. */
  lemma FlushProbes(n: Numbering, e: Endpoint)
    requires forall seg <- e.s.buf :: seg.cmd == CMD_PUSH
    ensures (exists x <- Emitted(n, e) :: x.cmd == CMD_WASK) <==> ProbeTimer(e.c).askSend
    ensures (exists x <- Emitted(n, e) :: x.cmd == CMD_WINS) <==> e.c.askTell
    ensures var c := Flushed(n, e).c;
            !c.askSend && !c.askTell && c.probeWait == Probed(e.c).probeWait && c.tsProbe == Probed(e.c).tsProbe
  {
    var st, c := StampOf(e), ProbeTimer(e.c);
    AdmitCommands(n, e.s, st, SendWindow(c), e.c.rto);
    DataOnly(e.c, st, Admitted(n, e).buf);
    Asked(AckSegments(st, e.r.acks), ProbeSegments(st, c), Outgoing(e.c, st, Admitted(n, e).buf), CMD_WASK);
    Asked(AckSegments(st, e.r.acks), ProbeSegments(st, c), Outgoing(e.c, st, Admitted(n, e).buf), CMD_WINS);
    ProbesAre(st, c);
    NothingLeftToSay(n, e);
  }

  lemma NothingLeftToSay(n: Numbering, e: Endpoint)
    ensures var c := Flushed(n, e).c;
            !c.askSend && !c.askTell && c.probeWait == Probed(e.c).probeWait && c.tsProbe == Probed(e.c).tsProbe
  {
  }

  lemma Asked(acks: seq<Segment>, probes: seq<Segment>, data: seq<Segment>, cmd: int)
    requires forall x <- acks + data :: x.cmd != cmd
    ensures (exists x <- acks + probes + data :: x.cmd == cmd) <==> exists x <- probes :: x.cmd == cmd
  {
  }

  lemma ProbesAre(st: Stamp, c: Control)
    ensures (exists x <- ProbeSegments(st, c) :: x.cmd == CMD_WASK) <==> c.askSend
    ensures (exists x <- ProbeSegments(st, c) :: x.cmd == CMD_WINS) <==> c.askTell
  {
    if c.askSend {
      assert ProbeSegments(st, c)[0].cmd == CMD_WASK;
    }
    if c.askTell {
      assert ProbeSegments(st, c)[|ProbeSegments(st, c)| - 1].cmd == CMD_WINS;
    }
  }

  // ---------------------------------------------------------------- congestion control

  /** Half of a number, rounded down, but at least two. */
  predicate Halved(threshold: int, of: int) {
    threshold >= 2 && (threshold == 2 || 2 * threshold <= of) && of <= 2 * threshold + 1
  }

  lemma {:induction false} CountIs(c: Control, buf: seq<Segment>, why: Reason)
    ensures CountReason(c, buf, why) > 0 <==> exists seg <- buf :: Why(c, seg) == why
  {
    if buf != [] {
      CountIs(c, buf[1..], why);
      assert buf == [buf[0]] + buf[1..];
    }
  }

  /**
   After a timeout the window is one segment and the threshold half the window there was; after early resends alone the
   threshold is half of what is in flight, and the window that and the number of skips an early resend takes; otherwise
   both stay, with a window of at least one.
   */
  predicate Reacted(c: Control, c': Control, mss: int, w: int, inFlight: int, lost: bool, early: bool) {
    && (lost ==> c'.cwnd == 1 && c'.incr == mss && Halved(c'.ssthresh, w))
    && (!lost && early ==>
          && Halved(c'.ssthresh, inFlight) && c'.incr == c'.cwnd * mss
          && c'.cwnd == c'.ssthresh + if c.fastresend > 0 then c.fastresend else 0x7FFF_FFFF)
    && (!lost && !early ==>
          && c'.ssthresh == c.ssthresh
          && (c.cwnd >= 1 ==> c'.cwnd == c.cwnd && c'.incr == c.incr)
          && (c.cwnd < 1 ==> c'.cwnd == 1 && c'.incr == mss))
  }

  lemma ReactIs(n: Numbering, c: Control, s: Sender, mss: int, w: int, fast: nat, lost: nat)
    requires 0 <= Span(n, s)
    ensures Reacted(c, React(n, c, s, mss, w, fast, lost), mss, w, Span(n, s), lost > 0, fast > 0)
  {
    InFlightIs(n, s);
  }

  /** The segments that a flush finds run out, and those that it sends early. */
  predicate SomeRunOut(c: Control, buf: seq<Segment>) { exists seg <- buf :: RunOut(c, seg) }

  predicate SomeEarly(c: Control, buf: seq<Segment>) {
    exists seg <- buf :: seg.xmit != 0 && !RunOut(c, seg) && PassedOften(c, seg)
  }

  lemma CountsAre(c: Control, buf: seq<Segment>)
    ensures CountReason(c, buf, Timeout) > 0 <==> SomeRunOut(c, buf)
    ensures CountReason(c, buf, Fast) > 0 <==> SomeEarly(c, buf)
  {
    CountIs(c, buf, Timeout);
    CountIs(c, buf, Fast);
  }

  lemma FlushReacts(n: Numbering, e: Endpoint, w: int)
    requires SendOk(n, e.s, WIDEST) && ControlOk(e.c) && IsWindow(e.c, w)
    ensures var buf := Admitted(n, e).buf;
            Reacted(e.c, Flushed(n, e).c, e.Mss(), w, Span(n, Flushed(n, e).s),
                    SomeRunOut(e.c, buf), SomeEarly(e.c, buf))
  {
    var buf := Admitted(n, e).buf;
    CountsAre(e.c, buf);
    ProbesKeepWindow(e.c);
    FlushKeepsSendOk(n, e, WIDEST);
    WindowIs(e.c, w);
    FlushedControl(n, e, w, CountReason(e.c, buf, Fast), CountReason(e.c, buf, Timeout));
  }

  lemma FlushedControl(n: Numbering, e: Endpoint, w: int, fast: nat, lost: nat)
    requires 0 <= Span(n, Flushed(n, e).s) && w == SendWindow(Probed(e.c))
    requires fast == CountReason(e.c, Admitted(n, e).buf, Fast) && lost == CountReason(e.c, Admitted(n, e).buf, Timeout)
    ensures Reacted(e.c, Flushed(n, e).c, e.Mss(), w, Span(n, Flushed(n, e).s), lost > 0, fast > 0)
  {
    ReactIs(n, Probed(e.c), Flushed(n, e).s, e.Mss(), w, fast, lost);
    assert Flushed(n, e).c == React(n, Probed(e.c), Flushed(n, e).s, e.Mss(), w, fast, lost);
    ReactedAlike(e.c, Probed(e.c), Flushed(n, e).c, e.Mss(), w, Span(n, Flushed(n, e).s), lost > 0, fast > 0);
  }

  lemma ReactedAlike(
    c: Control, c0: Control, c': Control, mss: int, w: int, inFlight: int, lost: bool, early: bool)
    requires Reacted(c0, c', mss, w, inFlight, lost, early)
    requires c0.ssthresh == c.ssthresh && c0.cwnd == c.cwnd && c0.incr == c.incr && c0.fastresend == c.fastresend
    ensures Reacted(c, c', mss, w, inFlight, lost, early)
  {
  }

  lemma WindowIs(c: Control, w: int)
    requires IsWindow(c, w)
    ensures SendWindow(c) == w && SendWindow(Probed(c)) == w
  {
  }

  lemma InFlightIs(n: Numbering, s: Sender)
    requires 0 <= Span(n, s)
    ensures Norm(n, s.nxt - s.una) == Span(n, s)
  {
  }
}
