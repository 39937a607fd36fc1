/** Loss-free rounds of the running hosts. */
module KcpDrainHosts {
  // On bytes and 32-bit numbers. As long as every number in a round can still be told from its wrapped copies, they
  // do what the rounds of KcpDrain do, so whatever any run of the hosts has lost is delivered in the end, if and only
  // if the receive window leaves room for a message when the header cuts it to 16 bits.

  import opened Bytes
  import opened Serial
  import opened KcpModel
  import opened KcpReceive
  import opened KcpSend
  import opened KcpStream
  import opened KcpSystem
  import opened KcpInvariant
  import opened KcpWrap
  import opened KcpRefine
  import opened KcpDrain

  function HostDeliverAll(p: Host, q: Host, packets: seq<Bytes>): (p': Host)
    requires p.e.Mss() > 0
    ensures p'.e.Mss() == p.e.Mss()
    decreases |packets|
  {
    if packets == [] then p
    else
      HostActKeepsMtu(p, q, HostInput(packets[0]));
      HostDeliverAll(HostAct(p, q, HostInput(packets[0])), q, packets[1..])
  }

  lemma HostRecvShortens(r: Receiver)
    requires PeekSize(r.queue) >= 0
    ensures var r' := Recv(Wrapping, r).0;
            |r'.queue| + |r'.buf| < |r.queue| + |r.buf|
  {
    PromoteShape(Wrapping, r.(queue := r.queue[MessageSpan(r.queue)..]));
  }

  function HostReadDry(p: Host): (p': Host)
    requires p.e.Mss() > 0
    ensures p'.e.Mss() == p.e.Mss() && PeekSize(p'.e.r.queue) < 0
    decreases |p.e.r.queue| + |p.e.r.buf|
  {
    if PeekSize(p.e.r.queue) < 0 then p
    else
      HostRecvShortens(p.e.r);
      HostReadDry(HostAct(p, p, HostRecv))
  }

  function HostUpdated(p: Host, now: int): (p': Host)
    requires p.e.Mss() > 0
    ensures p'.e.Mss() == p.e.Mss()
  {
    HostActKeepsMtu(p, p, HostUpdate(now));
    HostAct(p, p, HostUpdate(now))
  }

  /** The packets that `update` sends. */
  function HostSends(p: Host, now: int): seq<Bytes> {
    var (c, due) := Tick(p.e.c, now);
    if due then RawAll(Datagrams(Wrapping, p.e.(c := c))) else []
  }

  /** One round: sys.a updates, everything arrives and is read, sys.b updates, everything arrives. */
  function HostRound(sys: Hosts, ta: int, tb: int): Hosts
    requires sys.a.e.Mss() > 0 && sys.b.e.Mss() > 0
  {
    var a1 := HostUpdated(sys.a, ta);
    var b1 := HostReadDry(HostDeliverAll(sys.b, a1, HostSends(sys.a, ta)));
    var b2 := HostUpdated(b1, tb);
    Hosts(HostDeliverAll(a1, b2, HostSends(b1, tb)), b2)
  }

  // ---------------------------------------------------------------- one stage

  function RawAllOf(ds: seq<seq<Wire>>): (r: seq<Bytes>)
    ensures |r| == |ds| && forall i :: 0 <= i < |ds| ==> r[i] == RawOf(ds[i])
  {
    seq(|ds|, i requires 0 <= i < |ds| => RawOf(ds[i]))
  }

  /** At every delivery the running host does what the unbounded peer does. */
  ghost predicate DeliversInStep(x: Peer, y: Peer, ds: seq<seq<Wire>>)
    requires y.e.Mss() > 0
    decreases |ds|
  {
    ds == [] || (
      var y1 := Act(Unbounded, y, x, DoInput(ds[0]));
      && y1.e.Mss() > 0
      && HostAct(Running(y), Running(x), HostInput(RawOf(ds[0]))) == Running(y1)
      && DeliversInStep(x, y1, ds[1..]))
  }

  lemma InputKeepsAges(x: Peer, y: Peer, d: seq<Wire>)
    requires y.e.Mss() > 0
    ensures var y1 := Act(Unbounded, y, x, DoInput(d)); y1.e.s.nxt == y.e.s.nxt && y1.e.r.wnd == y.e.r.wnd
  {
    AbsorbAllSubset(y.e, d);
    AbsorbAllWindow(Unbounded, y.e, d);
  }

  lemma Taken(x: Peer, y: Peer, d: seq<Wire>) returns (y1: Peer)
    requires Linked(x, y) && Deliverable(x, y, d)
    ensures y1 == Act(Unbounded, y, x, DoInput(d)) && Linked(x, y1)
    ensures HostAct(Running(y), Running(x), HostInput(RawOf(d))) == Running(y1)
  {
    WrapAct(x, y, DoInput(d));
    ActKeepsLinked(x, y, DoInput(d));
    y1 := Act(Unbounded, y, x, DoInput(d));
  }

  lemma StillDeliverable(x: Peer, y: Peer, y1: Peer, ds: seq<seq<Wire>>)
    requires forall d <- ds :: Deliverable(x, y, d)
    requires y1.e.s.nxt == y.e.s.nxt && y1.e.r.wnd == y.e.r.wnd
    ensures forall d <- ds :: Deliverable(x, y1, d)
  {
    forall d <- ds
      ensures Deliverable(x, y1, d)
    {
      forall w <- d
        ensures Recent(x, y1, w)
      {
        assert Recent(x, y, w);
      }
    }
  }

  lemma {:induction false} LinkedDelivers(x: Peer, y: Peer, ds: seq<seq<Wire>>)
    requires Linked(x, y) && forall d <- ds :: Deliverable(x, y, d)
    ensures DeliversInStep(x, y, ds)
    decreases |ds|
  {
    if ds != [] {
      assert ds[0] in ds;
      var y1 := Taken(x, y, ds[0]);
      InputKeepsAges(x, y, ds[0]);
      StillDeliverable(x, y, y1, ds[1..]);
      LinkedDelivers(x, y1, ds[1..]);
    }
  }

  lemma {:induction false} InStepDelivers(x: Peer, y: Peer, ds: seq<seq<Wire>>)
    requires y.e.Mss() > 0 && DeliversInStep(x, y, ds)
    ensures HostDeliverAll(Running(y), Running(x), RawAllOf(ds)) == Running(DeliverAll(y, x, ds))
    decreases |ds|
  {
    if ds != [] {
      assert RawAllOf(ds)[1..] == RawAllOf(ds[1..]);
      InStepDelivers(x, Act(Unbounded, y, x, DoInput(ds[0])), ds[1..]);
    }
  }

  lemma RunningPeek(q: seq<Segment>)
    ensures PeekSize(WrapSegments(q)) == PeekSize(q)
  {
    WrapReassembly(q);
  }

  lemma ReadOne(x: Peer, y: Peer) returns (y1: Peer)
    requires Linked(x, y)
    ensures y1 == Act(Unbounded, y, y, DoRecv) && Linked(x, y1)
    ensures HostAct(Running(y), Running(y), HostRecv) == Running(y1)
  {
    WrapAct(x, y, DoRecv);
    ActKeepsLinked(x, y, DoRecv);
    y1 := Act(Unbounded, y, x, DoRecv);
  }

  lemma {:induction false} RunningReadDry(x: Peer, y: Peer)
    requires Linked(x, y)
    ensures HostReadDry(Running(y)) == Running(ReadDry(y))
    decreases |y.e.r.queue| + |y.e.r.buf|
  {
    RunningPeek(y.e.r.queue);
    if PeekSize(y.e.r.queue) >= 0 {
      RecvShortens(y.e.r);
      var y1 := ReadOne(x, y);
      RunningReadDry(x, y1);
    }
  }

  lemma RunningUpdated(p: Peer, now: int)
    requires PeerOk(p) && SendOk(Unbounded, p.e.s, WIDEST)
    ensures HostUpdated(Running(p), now) == Running(Updated(p, now))
  {
    WrapUpdateMove(p, p, now);
  }

  lemma RunningSends(p: Peer, now: int)
    requires ControlOk(p.e.c) && SendOk(Unbounded, p.e.s, WIDEST)
    ensures HostSends(Running(p), now) == RawAllOf(Sends(p, now))
  {
    var e0 := Ticked(p, now).e;
    WrapFlushDatagrams(e0);
    assert Running(p).e.(c := e0.c) == WrapEndpoint(e0);
  }

  /** Whatever x sends at that time, y can tell its numbers from their wrapped copies. */
  ghost predicate InReach(x: Peer, y: Peer, now: int)
    requires x.e.Mss() > 0
  {
    forall d <- Sends(x, now) :: Deliverable(Updated(x, now), y, d)
  }

  /** x updates and y takes everything in. */
  lemma Forward(x: Peer, y: Peer, now: int)
    requires Linked(x, y) && InReach(x, y, now)
    ensures var x1 := Updated(x, now);
            var y1 := DeliverAll(y, x1, Sends(x, now));
            && Linked(x1, y1) && HostUpdated(Running(x), now) == Running(x1)
            && HostDeliverAll(Running(y), Running(x1), HostSends(Running(x), now)) == Running(y1)
  {
    LinkedUpdates(x, y, now);
    LinkedSwap(x, y);
    RunningUpdated(x, now);
    RunningSends(x, now);
    LinkedDelivers(Updated(x, now), y, Sends(x, now));
    InStepDelivers(Updated(x, now), y, Sends(x, now));
    DeliverLinked(Updated(x, now), y, Sends(x, now));
  }

  lemma LinkedUpdates(x: Peer, y: Peer, now: int)
    requires Linked(x, y)
    ensures Linked(Updated(x, now), y)
  {
    LinkedSwap(x, y);
    UpdateLinked(y, x, now);
    LinkedSwap(y, Updated(x, now));
  }

  // ---------------------------------------------------------------- whole rounds

  /** The peers half way through a round: the first has updated, the second has read what arrived. */
  function HalfWay(sys: System, ta: int): System
    requires sys.a.e.Mss() > 0 && sys.b.e.Mss() > 0
  {
    var a1 := Updated(sys.a, ta);
    System(a1, ReadDry(DeliverAll(sys.b, a1, Sends(sys.a, ta))))
  }

  /** No number in a round is too old for the one it reaches. */
  ghost predicate RoundInReach(sys: System, ta: int, tb: int)
    requires sys.a.e.Mss() > 0 && sys.b.e.Mss() > 0
  {
    var half := HalfWay(sys, ta);
    InReach(sys.a, sys.b, ta) && InReach(half.b, half.a, tb)
  }

  lemma HostRoundIs(sys: System, ta: int, tb: int)
    requires Linked(sys.a, sys.b) && RoundInReach(sys, ta, tb)
    ensures HostRound(RunningAll(sys), ta, tb) == RunningAll(Round(sys, ta, tb))
  {
    var a1 := Updated(sys.a, ta);
    var b0 := DeliverAll(sys.b, a1, Sends(sys.a, ta));
    Forward(sys.a, sys.b, ta);
    RunningReadDry(a1, b0);
    ReadDryLinked(a1, b0);
    LinkedSwap(a1, ReadDry(b0));
    Forward(ReadDry(b0), a1, tb);
  }

  predicate NextHostRound(sys: Hosts, times: (int, int), next: Hosts) {
    && sys.a.e.Mss() > 0 && sys.b.e.Mss() > 0
    && Timely(sys.a.e, sys.b.e, times.0, times.1)
    && next == HostRound(sys, times.0, times.1)
  }

  /** Hosts each pair of which is one timely round after the one before. */
  predicate InHostRounds(t: seq<Hosts>, times: seq<(int, int)>) {
    |t| == |times| + 1
    && forall i {:trigger times[i]} :: 0 <= i < |times| ==> NextHostRound(t[i], times[i], t[i + 1])
  }

  /** The running hosts do in that round what the unbounded peers do. */
  predicate InStep(sys: System, times: (int, int), next: System)
    requires NextRound(sys, times, next)
  {
    HostRound(RunningAll(sys), times.0, times.1) == RunningAll(next)
  }

  /** Timers, lengths and windows do not depend on the numbering. */
  lemma RunningWork(sys: System)
    ensures var h := RunningAll(sys);
            && Work(h.a.e) == Work(sys.a.e)
            && forall ta, tb :: Timely(h.a.e, h.b.e, ta, tb) <==> Timely(sys.a.e, sys.b.e, ta, tb)
  {
  }

  /** The peers' round that a round of the hosts stands for. */
  lemma PeerRound(sys: System, at: (int, int), h: Hosts) returns (next: System)
    requires NextHostRound(RunningAll(sys), at, h)
    ensures NextRound(sys, at, next) && (InStep(sys, at, next) ==> RunningAll(next) == h)
  {
    RunningWork(sys);
    next := Round(sys, at.0, at.1);
  }

  /** Steps that keep an invariant and use up work, taken one after the other. */
  lemma {:induction false} Descends<S, L>(
    t: seq<S>, labels: seq<L>, i: nat, step: (S, L, S) -> bool, inv: S -> bool, work: S -> nat)
    requires |t| == |labels| + 1 && i < |t| && inv(t[0])
    requires forall k {:trigger labels[k]} :: 0 <= k < |labels| ==> step(t[k], labels[k], t[k + 1])
    requires forall s, l, s' | inv(s) && step(s, l, s') ::
      inv(s') && (work(s') < work(s) || work(s') == work(s) == 0)
    ensures inv(t[i]) && (work(t[i]) == 0 || work(t[i]) + i <= work(t[0]))
  {
    if i > 0 {
      Descends(t, labels, i - 1, step, inv, work);
      assert step(t[i - 1], labels[i - 1], t[i - 1 + 1]);
    }
  }

  // ---------------------------------------------------------------- conversations too short to wrap

  /** Linked peers whose conversation is too short for any number to grow too old. */
  ghost predicate Brief(sys: System) {
    Linked(sys.a, sys.b) && BriefFragments(sys.a, sys.b)
  }

  ghost predicate BriefFragments(x: Peer, y: Peer)
    requires x.e.Mss() > 0 && y.e.Mss() > 0
  {
    && |Frags(x)| < MaxAge(x) && |Frags(x)| < MaxAge(y)
    && |Frags(y)| < MaxAge(x) && |Frags(y)| < MaxAge(y)
  }

  lemma {:induction false} DeliverKeeps(x: Peer, y: Peer, ds: seq<seq<Wire>>)
    requires y.e.Mss() > 0
    ensures var y' := DeliverAll(y, x, ds);
            y'.e.mtu == y.e.mtu && y'.e.r.wnd == y.e.r.wnd && y'.accepted == y.accepted
    decreases |ds|
  {
    if ds != [] {
      ActKeepsMtu(Unbounded, y, x, DoInput(ds[0]));
      AbsorbAllWindow(Unbounded, y.e, ds[0]);
      DeliverKeeps(x, Act(Unbounded, y, x, DoInput(ds[0])), ds[1..]);
    }
  }

  lemma UpdatedKeeps(p: Peer, now: int)
    requires p.e.Mss() > 0
    ensures var p' := Updated(p, now); p'.e.mtu == p.e.mtu && p'.e.r.wnd == p.e.r.wnd && p'.accepted == p.accepted
    ensures forall d <- Sends(p, now) :: d in Updated(p, now).out
  {
    ActUpdate(Unbounded, p, p, now);
    if Tick(p.e.c, now).1 {
      UpdatedIsFlushed(p, now);
    }
  }

  lemma BriefInReach(x: Peer, y: Peer, now: int)
    requires Linked(x, y) && BriefFragments(x, y)
    ensures InReach(x, y, now)
  {
    UpdatedKeeps(x, now);
    LinkedUpdates(x, y, now);
    forall d <- Sends(x, now)
      ensures Deliverable(Updated(x, now), y, d)
    {
      ShortIsRecent(Updated(x, now), y, d);
    }
  }

  lemma HalfKeeps(sys: System, ta: int)
    requires Linked(sys.a, sys.b)
    ensures var half := HalfWay(sys, ta);
            && Linked(half.a, half.b)
            && half.a.e.mtu == sys.a.e.mtu && half.a.e.r.wnd == sys.a.e.r.wnd && half.a.accepted == sys.a.accepted
            && half.b.e.mtu == sys.b.e.mtu && half.b.e.r.wnd == sys.b.e.r.wnd && half.b.accepted == sys.b.accepted
  {
    LinkedOut(sys.a, sys.b, ta);
    UpdatedKeeps(sys.a, ta);
    DeliverKeeps(Updated(sys.a, ta), sys.b, Sends(sys.a, ta));
    ReadDryLinked(Updated(sys.a, ta), DeliverAll(sys.b, Updated(sys.a, ta), Sends(sys.a, ta)));
    ReadDryKeeps(DeliverAll(sys.b, Updated(sys.a, ta), Sends(sys.a, ta)));
  }

  lemma RoundKeeps(sys: System, ta: int, tb: int)
    requires Linked(sys.a, sys.b)
    ensures var sys' := Round(sys, ta, tb);
            && Linked(sys'.a, sys'.b)
            && sys'.a.e.mtu == sys.a.e.mtu && sys'.a.e.r.wnd == sys.a.e.r.wnd && sys'.a.accepted == sys.a.accepted
            && sys'.b.e.mtu == sys.b.e.mtu && sys'.b.e.r.wnd == sys.b.e.r.wnd && sys'.b.accepted == sys.b.accepted
  {
    var half := HalfWay(sys, ta);
    HalfKeeps(sys, ta);
    LinkedSwap(half.a, half.b);
    LinkedOut(half.b, half.a, tb);
    UpdatedKeeps(half.b, tb);
    DeliverKeeps(Updated(half.b, tb), half.a, Sends(half.b, tb));
    LinkedSwap(Updated(half.b, tb), DeliverAll(half.a, Updated(half.b, tb), Sends(half.b, tb)));
  }

  lemma BriefRound(sys: System, at: (int, int), next: System)
    requires Brief(sys) && NextRound(sys, at, next)
    ensures Brief(next) && InStep(sys, at, next)
  {
    var half := HalfWay(sys, at.0);
    BriefInReach(sys.a, sys.b, at.0);
    HalfKeeps(sys, at.0);
    LinkedSwap(half.a, half.b);
    BriefInReach(half.b, half.a, at.1);
    HostRoundIs(sys, at.0, at.1);
    RoundKeeps(sys, at.0, at.1);
  }

  // ---------------------------------------------------------------- draining

  /** Everything accepted has been delivered, and all of it is acknowledged. */
  predicate HostsDrained(sys: Hosts, msgs: seq<Bytes>) {
    && sys.a.e.s.queue == [] && sys.a.e.s.buf == [] && sys.a.e.s.una == sys.a.e.s.nxt
    && sys.a.accepted == msgs && sys.b.got == msgs
  }

  /** The peers are ready for rounds that keep them in step with the hosts. */
  ghost predicate ReadyInReach(sys: System, msgs: seq<Bytes>, reach: System -> bool) {
    reach(sys) && Ready(sys) && sys.a.accepted == msgs
  }

  ghost predicate HostsReady(h: Hosts, msgs: seq<Bytes>, reach: System -> bool) {
    exists sys :: RunningAll(sys) == h && ReadyInReach(sys, msgs, reach)
  }

  lemma StandIn(sys: System, h: Hosts, at: (int, int), next: Hosts, msgs: seq<Bytes>, reach: System -> bool)
    returns (sys': System)
    requires RunningAll(sys) == h && ReadyInReach(sys, msgs, reach) && NextHostRound(h, at, next)
    requires forall s, at, s' | reach(s) && NextRound(s, at, s') :: reach(s') && InStep(s, at, s')
    ensures RunningAll(sys') == next && ReadyInReach(sys', msgs, reach)
    ensures Work(sys'.a.e) < Work(sys.a.e) || Work(sys'.a.e) == Work(sys.a.e) == 0
  {
    sys' := PeerRound(sys, at, next);
    assert reach(sys') && InStep(sys, at, sys');
    OneRound(sys, at, sys');
  }

  lemma HostOneRound(h: Hosts, at: (int, int), next: Hosts, msgs: seq<Bytes>, reach: System -> bool)
    requires HostsReady(h, msgs, reach) && NextHostRound(h, at, next)
    requires forall s, at, s' | reach(s) && NextRound(s, at, s') :: reach(s') && InStep(s, at, s')
    ensures HostsReady(next, msgs, reach)
    ensures Work(next.a.e) < Work(h.a.e) || Work(next.a.e) == Work(h.a.e) == 0
  {
    var sys :| RunningAll(sys) == h && ReadyInReach(sys, msgs, reach);
    var sys' := StandIn(sys, h, at, next, msgs, reach);
    RunningWork(sys);
    RunningWork(sys');
  }

  lemma HostsDone(h: Hosts, msgs: seq<Bytes>, reach: System -> bool)
    requires HostsReady(h, msgs, reach) && Work(h.a.e) == 0
    ensures HostsDrained(h, msgs)
  {
    var sys :| RunningAll(sys) == h && ReadyInReach(sys, msgs, reach);
    RunningWork(sys);
    NoWorkDrained(sys);
  }

  /**
   Loss-free rounds terminate, for any timely schedule, as long as the hosts stay in step: once there have been as many
   rounds as there is work, everything accepted has been delivered and acknowledged, and stays so.
   */
  lemma HostsDrain(t: seq<Hosts>, times: seq<(int, int)>, i: nat, msgs: seq<Bytes>, reach: System -> bool)
    requires InHostRounds(t, times) && i < |t| && HostsReady(t[0], msgs, reach) && i >= Work(t[0].a.e)
    requires forall s, at, s' | reach(s) && NextRound(s, at, s') :: reach(s') && InStep(s, at, s')
    ensures HostsDrained(t[i], msgs)
  {
    var step := (h: Hosts, at: (int, int), h': Hosts) => NextHostRound(h, at, h');
    var inv := (h: Hosts) => HostsReady(h, msgs, reach);
    var work := (h: Hosts) => Work(h.a.e);
    forall h, at, h' | inv(h) && step(h, at, h')
      ensures inv(h') && (work(h') < work(h) || work(h') == work(h) == 0)
    {
      HostOneRound(h, at, h', msgs, reach);
    }
    Descends(t, times, i, step, inv, work);
    HostsDone(t[i], msgs, reach);
  }

  lemma ReadyStands(sys: System, reach: System -> bool)
    requires Ready(sys) && reach(sys)
    ensures HostsReady(RunningAll(sys), sys.a.accepted, reach)
  {
    assert ReadyInReach(sys, sys.a.accepted, reach);
  }

  /** from and to are the two hosts after a run too short to wrap, in either order. */
  predicate ShortRun(conv: int, ca: Config, cb: Config, moves: seq<HostMove>, from: Host, to: Host) {
    && ConfigOk(ca) && ConfigOk(cb)
    && var end := HostRun(NewHosts(conv, ca, cb), moves);
       Short(end) && ((from == end.a && to == end.b) || (from == end.b && to == end.a))
  }

  /** Timely rounds that begin when the second host has been read dry. */
  predicate RoundsFrom(from: Host, to: Host, t: seq<Hosts>, times: seq<(int, int)>) {
    && from.e.Mss() > 0 && to.e.Mss() > 0
    && InHostRounds(t, times) && t[0] == Hosts(from, HostReadDry(to))
  }

  /** When there have been as many rounds as there is work, all is done. */
  predicate AllDrained(from: Host, t: seq<Hosts>) {
    forall i :: Work(from.e) <= i < |t| ==> HostsDrained(t[i], from.accepted)
  }

  lemma BriefEnd(conv: int, ca: Config, cb: Config, moves: seq<HostMove>, from: Host, to: Host)
    returns (x: Peer, y: Peer)
    requires ShortRun(conv, ca, cb, moves, from, to)
    ensures Brief(System(x, y)) && Running(x) == from && Running(y) == to
  {
    NewHostsRunning(conv, ca, cb);
    NewSystemLinked(conv, ca, cb);
    var end := LiftRun(NewSystem(conv, ca, cb), moves);
    ShortFragments(end);
    if from == Running(end.a) && to == Running(end.b) {
      x, y := end.a, end.b;
    } else {
      x, y := end.b, end.a;
    }
  }

  lemma BriefReadDry(x: Peer, y: Peer)
    requires Brief(System(x, y))
    ensures Brief(System(x, ReadDry(y))) && HostReadDry(Running(y)) == Running(ReadDry(y))
  {
    ReadDryLinked(x, y);
    ReadDryKeeps(y);
    RunningReadDry(x, y);
  }

  /**
   The hosts as they run: whatever a run too short to wrap has lost, repeated and reordered, from then on any timely
   loss-free rounds deliver and acknowledge everything, in either direction: in one round for each segment queued or in
   flight, and at most two more to reopen a shut window. The receiver is first read dry.
   */
  lemma HostBacklogDrains(
    conv: int, ca: Config, cb: Config, moves: seq<HostMove>, from: Host, to: Host,
    t: seq<Hosts>, times: seq<(int, int)>)
    requires ShortRun(conv, ca, cb, moves, from, to) && Roomy(to.e.r.wnd)
    requires RoundsFrom(from, to, t, times)
    ensures Work(from.e) <= Backlog(from.e) + if Moving(from.e) then 0 else 2
    ensures AllDrained(from, t)
  {
    WorkBound(from.e);
    var x, y := BriefEnd(conv, ca, cb, moves, from, to);
    BriefReadDry(x, y);
    ReadReady(x, y);
    var reach := (s: System) => Brief(s);
    BriefAlwaysReaches();
    ReadyStands(System(x, ReadDry(y)), reach);
    forall i | Work(from.e) <= i < |t|
      ensures HostsDrained(t[i], from.accepted)
    {
      HostsDrain(t, times, i, from.accepted, reach);
    }
  }

  lemma BriefAlwaysReaches()
    ensures forall s, at, s' | Brief(s) && NextRound(s, at, s') :: Brief(s') && InStep(s, at, s')
  {
    forall s, at, s' | Brief(s) && NextRound(s, at, s')
      ensures Brief(s') && InStep(s, at, s')
    {
      BriefRound(s, at, s');
    }
  }

  // ---------------------------------------------------------------- exactly which windows

  lemma HostsKeep(t: seq<Hosts>, times: seq<(int, int)>, i: nat, keep: Hosts -> bool)
    requires InHostRounds(t, times) && i < |t| && keep(t[0])
    requires forall h, at, h' | keep(h) && NextHostRound(h, at, h') :: keep(h')
    ensures keep(t[i])
  {
    var step := (h: Hosts, at: (int, int), h': Hosts) => NextHostRound(h, at, h');
    Descends(t, times, i, step, keep, (h: Hosts) => 0);
  }

  /** A message of k + 1 fragments. */
  function Long(mss: int, k: nat): Bytes
    requires mss > 0
  {
    MulStep(k, mss);
    seq(k * mss + 1, i => 0)
  }

  lemma LongFragments(mss: int, k: nat)
    requires mss > 0
    ensures |Fragments(mss, Long(mss, k))| == k + 1
  {
    MulStep(k, mss);
    FragmentsCount(mss, Long(mss, k));
    DivIs(k * mss + 1 + mss - 1, mss, k + 1, 0);
  }

  /** Two messages of one fragment more than the header shows of the window. */
  function NarrowRun(mss: int, wnd: int): seq<HostMove>
    requires mss > 0
  {
    var m := Long(mss, wnd % 0x1_0000);
    [HostA(HostSend(m)), HostA(HostSend(m))]
  }

  /** The two hosts stand for peers of which the first never gets rid of what it has queued. */
  ghost predicate StillNarrow(sys: System, m: Bytes) {
    Brief(sys) && Narrowing(sys, m)
  }

  lemma NarrowHosts(conv: int, ca: Config, cb: Config, m: Bytes) returns (sys: System)
    requires ConfigOk(ca) && ConfigOk(cb) && ca.sndWnd == 1 && !Roomy(cb.rcvWnd)
    requires m == Long(ca.mtu - OVERHEAD, cb.rcvWnd % 0x1_0000)
    ensures RunningAll(sys) == HostRun(NewHosts(conv, ca, cb), NarrowRun(ca.mtu - OVERHEAD, cb.rcvWnd))
    ensures StillNarrow(sys, m) && sys.b == NewPeer(conv, cb)
  {
    sys := Run(Unbounded, NewSystem(conv, ca, cb), NarrowMessages(m));
    LongFragments(ca.mtu - OVERHEAD, cb.rcvWnd % 0x1_0000);
    NarrowStart(conv, ca, cb, m);
    TwoSent(conv, ca, cb, m);
    NarrowIsBrief(sys, m);
    NarrowRunning(conv, ca, cb, m);
  }

  lemma NarrowIsBrief(sys: System, m: Bytes)
    requires Narrowing(sys, m) && sys.b.accepted == [] && !Roomy(sys.b.e.r.wnd)
    ensures Brief(sys)
  {
    TwoMessages(sys.a.e.Mss(), m);
  }

  lemma NarrowRunning(conv: int, ca: Config, cb: Config, m: Bytes)
    requires ConfigOk(ca) && ConfigOk(cb)
    requires m == Long(ca.mtu - OVERHEAD, cb.rcvWnd % 0x1_0000)
    ensures RunningAll(Run(Unbounded, NewSystem(conv, ca, cb), NarrowMessages(m)))
            == HostRun(NewHosts(conv, ca, cb), NarrowRun(ca.mtu - OVERHEAD, cb.rcvWnd))
  {
    NewHostsRunning(conv, ca, cb);
    NewSystemLinked(conv, ca, cb);
    TwoAllowed(NewSystem(conv, ca, cb), m);
    WrapRun(NewSystem(conv, ca, cb), NarrowMessages(m));
    assert RunningMoves(NarrowMessages(m)) == NarrowRun(ca.mtu - OVERHEAD, cb.rcvWnd);
  }

  lemma TwoAllowed(sys: System, m: Bytes)
    requires sys.a.e.Mss() > 0 && sys.b.e.Mss() > 0
    ensures Forgetful(sys, NarrowMessages(m))
  {
    var sys1 := Next(Unbounded, sys, MoveA(DoSend(m)));
    ActKeepsMtu(Unbounded, sys.a, sys.b, DoSend(m));
    ActKeepsMtu(Unbounded, sys1.a, sys.b, DoSend(m));
    assert NarrowMessages(m)[1..] == [MoveA(DoSend(m))] && [MoveA(DoSend(m))][1..] == [];
    assert Forgetful(Next(Unbounded, sys1, MoveA(DoSend(m))), []);
  }

  ghost predicate HostsNarrow(h: Hosts, m: Bytes) {
    exists sys :: RunningAll(sys) == h && StillNarrow(sys, m)
  }

  lemma NarrowStands(sys: System, m: Bytes)
    requires StillNarrow(sys, m)
    ensures HostsNarrow(RunningAll(sys), m)
  {
  }

  lemma StaysNarrow(sys: System, m: Bytes, at: (int, int), h: Hosts)
    requires StillNarrow(sys, m) && NextHostRound(RunningAll(sys), at, h)
    ensures HostsNarrow(h, m)
  {
    var next := PeerRound(sys, at, h);
    BriefRound(sys, at, next);
    RoundStaysNarrow(sys, m, at.0, at.1);
    NarrowStands(next, m);
  }

  lemma HostsStayNarrow(h: Hosts, m: Bytes, at: (int, int), next: Hosts)
    requires HostsNarrow(h, m) && NextHostRound(h, at, next)
    ensures HostsNarrow(next, m)
  {
    var sys :| RunningAll(sys) == h && StillNarrow(sys, m);
    StaysNarrow(sys, m, at, next);
  }

  lemma HostsUnsent(h: Hosts, m: Bytes)
    requires HostsNarrow(h, m)
    ensures h.a.e.s.queue != []
  {
    var sys :| RunningAll(sys) == h && StillNarrow(sys, m);
    NarrowUnsent(sys, m);
  }

  lemma AlwaysNarrow(m: Bytes)
    ensures forall h, at, h' | HostsNarrow(h, m) && NextHostRound(h, at, h') :: HostsNarrow(h', m)
  {
    forall h, at, h' | HostsNarrow(h, m) && NextHostRound(h, at, h')
      ensures HostsNarrow(h', m)
    {
      HostsStayNarrow(h, m, at, h');
    }
  }

  lemma NarrowOn(t: seq<Hosts>, times: seq<(int, int)>, i: nat, m: Bytes)
    requires InHostRounds(t, times) && i < |t| && HostsNarrow(t[0], m)
    ensures HostsNarrow(t[i], m)
  {
    AlwaysNarrow(m);
    HostsKeep(t, times, i, h => HostsNarrow(h, m));
  }

  /** A run after which no schedule of timely rounds ever sends all there is. */
  lemma HostsNeverDrain(conv: int, ca: Config, cb: Config, t: seq<Hosts>, times: seq<(int, int)>, i: nat)
    requires ConfigOk(ca) && ConfigOk(cb) && ca.sndWnd == 1 && !Roomy(cb.rcvWnd)
    requires var end := HostRun(NewHosts(conv, ca, cb), NarrowRun(ca.mtu - OVERHEAD, cb.rcvWnd));
             RoundsFrom(end.a, end.b, t, times)
    requires i < |t|
    ensures t[i].a.e.s.queue != []
  {
    var m := Long(ca.mtu - OVERHEAD, cb.rcvWnd % 0x1_0000);
    var sys := NarrowHosts(conv, ca, cb, m);
    NarrowStands(sys, m);
    NarrowOn(t, times, i, m);
    HostsUnsent(t[i], m);
  }

  /** Whether every run that ends at a receive window of this size is followed by nothing but draining. */
  ghost predicate AlwaysDrains(wnd: int) {
    forall conv, ca, cb, moves, from, to, t, times ::
      ShortRun(conv, ca, cb, moves, from, to) && to.e.r.wnd == wnd && RoundsFrom(from, to, t, times) ==>
        AllDrained(from, t)
  }

  /** There are timely rounds of any number. */
  lemma {:induction false} RoundsExist(sys: Hosts, n: nat) returns (t: seq<Hosts>, times: seq<(int, int)>)
    requires sys.a.e.Mss() > 0 && sys.b.e.Mss() > 0
    ensures InHostRounds(t, times) && |times| == n && t[0] == sys
    ensures t[n].a.e.Mss() > 0 && t[n].b.e.Mss() > 0
  {
    if n == 0 {
      t, times := [sys], [];
    } else {
      t, times := RoundsExist(sys, n - 1);
      var last := t[n - 1];
      var ta, tb := TimelyExists(last.a.e, last.b.e);
      t, times := t + [HostRound(last, ta, tb)], times + [(ta, tb)];
    }
  }

  /** The receive windows to which everything drains are those that show room for 127 segments modulo 65536. */
  lemma DrainsIff(wnd: int)
    requires 1 <= wnd < HALF - 0x2_0000
    ensures AlwaysDrains(wnd) <==> wnd % 0x1_0000 >= WND_RCV - 1
  {
    if Roomy(wnd) {
      forall conv, ca, cb, moves, from, to, t, times |
        ShortRun(conv, ca, cb, moves, from, to) && to.e.r.wnd == wnd && RoundsFrom(from, to, t, times)
        ensures AllDrained(from, t)
      {
        HostBacklogDrains(conv, ca, cb, moves, from, to, t, times);
      }
    } else {
      var from, to, t, times := NotDrained(wnd);
    }
  }

  lemma NotDrained(wnd: int) returns (from: Host, to: Host, t: seq<Hosts>, times: seq<(int, int)>)
    requires 1 <= wnd < HALF - 0x2_0000 && !Roomy(wnd)
    ensures !AlwaysDrains(wnd)
  {
    var ca, cb := Config(50, 1, WND_RCV, 0, 100, 0, 0), Config(50, 32, wnd, 0, 100, 0, 0);
    var moves := NarrowRun(26, wnd);
    var end := HostRun(NewHosts(0, ca, cb), moves);
    from, to := end.a, end.b;
    t, times := RoundsExist(Hosts(from, HostReadDry(to)), Work(from.e));
    HostsNeverDrain(0, ca, cb, t, times, Work(from.e));
    NarrowIsShort(0, ca, cb);
    assert ShortRun(0, ca, cb, moves, from, to) && to.e.r.wnd == wnd && RoundsFrom(from, to, t, times);
    assert !HostsDrained(t[Work(from.e)], from.accepted);
  }

  lemma NarrowIsShort(conv: int, ca: Config, cb: Config)
    requires ConfigOk(ca) && ConfigOk(cb) && ca.sndWnd == 1 && !Roomy(cb.rcvWnd)
    ensures var moves := NarrowRun(ca.mtu - OVERHEAD, cb.rcvWnd);
            var end := HostRun(NewHosts(conv, ca, cb), moves);
            ShortRun(conv, ca, cb, moves, end.a, end.b) && end.b.e.r.wnd == cb.rcvWnd
  {
    var sys := NarrowHosts(conv, ca, cb, Long(ca.mtu - OVERHEAD, cb.rcvWnd % 0x1_0000));
    BriefIsShort(sys);
  }

  lemma BriefIsShort(sys: System)
    requires Brief(sys)
    ensures Short(RunningAll(sys))
  {
    FewIsShort(sys);
  }

  lemma FewIsShort(sys: System)
    requires sys.a.e.Mss() > 0 && sys.b.e.Mss() > 0 && BriefFragments(sys.a, sys.b)
    ensures Short(RunningAll(sys))
  {
  }

  // ---------------------------------------------------------------- what a shut window means

  /**
   A host that takes the window to be shut, with nothing in flight, at a host that has everything sent, has read all it
   can and shows no room, sends nothing more of what it has queued, whatever the rounds.
   */
  lemma HostsShutForGood(
    conv: int, ca: Config, cb: Config, moves: seq<HostMove>, from: Host, to: Host,
    t: seq<Hosts>, times: seq<(int, int)>, i: nat)
    requires ShortRun(conv, ca, cb, moves, from, to) && ShutEnds(from.e, to.e)
    requires InHostRounds(t, times) && t[0] == Hosts(from, to) && i < |t|
    ensures t[i].a.e.s.queue == from.e.s.queue
  {
    var x, y := BriefEnd(conv, ca, cb, moves, from, to);
    ShutPeers(x, y);
    ShutStands(System(x, y));
    ShutOn(t, times, i, x.e.s.queue);
  }

  ghost predicate StillShut(sys: System, queue: seq<Segment>) {
    Brief(sys) && Shut(sys) && sys.a.e.s.queue == queue
  }

  ghost predicate HostsShut(h: Hosts, queue: seq<Segment>) {
    exists sys :: RunningAll(sys) == h && StillShut(sys, queue)
  }

  lemma ShutStands(sys: System)
    requires Brief(sys) && Shut(sys)
    ensures HostsShut(RunningAll(sys), sys.a.e.s.queue)
  {
    assert StillShut(sys, sys.a.e.s.queue);
  }

  lemma StaysShut(sys: System, at: (int, int), h: Hosts)
    requires Brief(sys) && Shut(sys) && NextHostRound(RunningAll(sys), at, h)
    ensures HostsShut(h, sys.a.e.s.queue)
  {
    var next := PeerRound(sys, at, h);
    BriefRound(sys, at, next);
    RoundStaysShut(sys, at.0, at.1);
    ShutStands(next);
  }

  lemma HostsStayShut(h: Hosts, queue: seq<Segment>, at: (int, int), next: Hosts)
    requires HostsShut(h, queue) && NextHostRound(h, at, next)
    ensures HostsShut(next, queue)
  {
    var sys :| RunningAll(sys) == h && StillShut(sys, queue);
    StaysShut(sys, at, next);
  }

  lemma AlwaysShut(queue: seq<Segment>)
    ensures forall h, at, h' | HostsShut(h, queue) && NextHostRound(h, at, h') :: HostsShut(h', queue)
  {
    forall h, at, h' | HostsShut(h, queue) && NextHostRound(h, at, h')
      ensures HostsShut(h', queue)
    {
      HostsStayShut(h, queue, at, h');
    }
  }

  lemma ShutOn(t: seq<Hosts>, times: seq<(int, int)>, i: nat, queue: seq<Segment>)
    requires InHostRounds(t, times) && i < |t| && HostsShut(t[0], queue)
    ensures t[i].a.e.s.queue == WrapSegments(queue)
  {
    AlwaysShut(queue);
    HostsKeep(t, times, i, h => HostsShut(h, queue));
  }

  lemma ShutPeers(x: Peer, y: Peer)
    requires Brief(System(x, y)) && ShutEnds(Running(x).e, Running(y).e)
    ensures Shut(System(x, y))
  {
    RunningPeek(y.e.r.queue);
    BriefNumbers(x, y);
  }

  lemma BriefBounds(x: Peer, y: Peer)
    requires Brief(System(x, y))
    ensures 0 <= x.e.s.una <= x.e.s.nxt < HALF && 0 <= y.e.r.nxt <= x.e.s.nxt
  {
  }

  lemma SmallNumbers(x: Peer, y: Peer)
    requires 0 <= x.e.s.una <= x.e.s.nxt < HALF && 0 <= y.e.r.nxt <= x.e.s.nxt
    ensures Running(x).e.s.una == x.e.s.una && Running(x).e.s.nxt == x.e.s.nxt && Running(y).e.r.nxt == y.e.r.nxt
  {
  }

  /** In a conversation too short to wrap the hosts' numbers are the peers'. */
  lemma BriefNumbers(x: Peer, y: Peer)
    requires Brief(System(x, y))
    ensures Running(x).e.s.una == x.e.s.una && Running(x).e.s.nxt == x.e.s.nxt && Running(y).e.r.nxt == y.e.r.nxt
  {
    BriefBounds(x, y);
    SmallNumbers(x, y);
  }

  /** A host whose receive queue has room has everything below the other's oldest unacknowledged number. */
  lemma HostsHaveNoGap(conv: int, ca: Config, cb: Config, moves: seq<HostMove>, from: Host, to: Host)
    requires ShortRun(conv, ca, cb, moves, from, to) && |to.e.r.queue| < to.e.r.wnd
    ensures from.e.s.una <= to.e.r.nxt <= from.e.s.nxt
  {
    var x, y := BriefEnd(conv, ca, cb, moves, from, to);
    NoGap(x, y);
    BriefNumbers(x, y);
  }
}
