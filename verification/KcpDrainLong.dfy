/** Loss-free rounds after long runs. */
module KcpDrainLong {
  // The rounds of KcpDrainHosts after a run of any length over a forgetful network. A round only carries numbers that
  // are new, except for the acknowledgements still to be sent when the rounds begin: as long as those are not too
  // old, the hosts stay in step with the peers for ever.

  import opened Serial
  import opened KcpModel
  import opened KcpReceive
  import opened KcpSend
  import opened KcpWire
  import opened KcpPacking
  import opened KcpSystem
  import opened KcpWrap
  import opened KcpRefine
  import opened KcpDrain
  import opened KcpDrainHosts

  // ---------------------------------------------------------------- numbers a peer sends

  /** What y still has to acknowledge is not too old for x, even when x has numbered all that it may. */
  ghost predicate AcksFresh(x: Peer, y: Peer) {
    forall a <- y.e.r.acks :: x.e.s.una + WIDEST - a.0 < MaxAge(x)
  }

  /** Both receive windows and the widest send window are less than half a cycle. */
  predicate WindowsFit(x: Peer, y: Peer) {
    x.e.r.wnd + y.e.r.wnd + WIDEST < HALF
  }

  ghost predicate Fresh(sys: System) {
    Linked(sys.a, sys.b) && WindowsFit(sys.a, sys.b) && AcksFresh(sys.a, sys.b) && AcksFresh(sys.b, sys.a)
  }

  /** A segment that a flush sends acknowledges something pending, or carries one of the numbers in use. */
  ghost predicate FromFlush(p: Peer, nxt: int, w: Wire) {
    && w.una == p.e.r.nxt
    && (w.cmd == CMD_ACK ==> exists a <- p.e.r.acks :: a.0 == w.sn)
    && (w.cmd == CMD_PUSH ==> p.e.s.una <= w.sn < nxt <= p.e.s.una + WIDEST)
  }

  lemma AdmittedNumbers(e: Endpoint, b: Segment)
    requires SendOk(Unbounded, e.s, WIDEST) && ControlOk(e.c) && b in Admitted(Unbounded, e).buf
    ensures e.s.una <= b.sn < Flushed(Unbounded, e).s.nxt <= e.s.una + WIDEST
  {
    AdmitKeeps(Unbounded, e.s, WIDEST, StampOf(e), SendWindow(ProbeTimer(e.c)), e.c.rto);
    var s := Admitted(Unbounded, e);
    var i :| 0 <= i < |s.buf| && s.buf[i] == b;
    assert 0 <= Ahead(Unbounded, s, s.buf[i].sn) < Span(Unbounded, s);
  }

  lemma FlushNumbers(p: Peer, d: seq<Wire>, w: Wire)
    requires PeerOk(p) && SendOk(Unbounded, p.e.s, WIDEST) && forall seg <- p.e.s.buf :: seg.cmd == CMD_PUSH
    requires d in Datagrams(Unbounded, p.e) && w in d
    ensures FromFlush(p, Flushed(Unbounded, p.e).s.nxt, w)
  {
    EmittedExplained(Unbounded, p.e);
    var seg := InDatagram(Unbounded, p.e, d, w);
    ExplainedNumbers(p, seg);
  }

  lemma ExplainedNumbers(p: Peer, seg: Segment)
    requires SendOk(Unbounded, p.e.s, WIDEST) && ControlOk(p.e.c) && Explained(Unbounded, p.e, seg)
    ensures FromFlush(p, Flushed(Unbounded, p.e).s.nxt, OnWire(Unbounded, seg))
  {
    if seg.cmd == CMD_ACK {
      assert (seg.sn, seg.ts) in p.e.r.acks;
    } else if seg.cmd == CMD_PUSH {
      var b :| b in Admitted(Unbounded, p.e).buf && seg.sn == b.sn;
      AdmittedNumbers(p.e, b);
    }
  }

  lemma SendsNumbers(x: Peer, now: int)
    requires PeerOk(x) && SendOk(Unbounded, x.e.s, WIDEST) && forall seg <- x.e.s.buf :: seg.cmd == CMD_PUSH
    requires Tick(x.e.c, now).1
    ensures forall d, w | d in Sends(x, now) && w in d :: FromFlush(x, Updated(x, now).e.s.nxt, w)
  {
    UpdatedIsFlushed(x, now);
    forall d, w | d in Sends(x, now) && w in d
      ensures FromFlush(x, Updated(x, now).e.s.nxt, w)
    {
      FlushNumbers(Ticked(x, now), d, w);
    }
  }

  lemma UpdatedClears(x: Peer, now: int)
    requires PeerOk(x) && SendOk(Unbounded, x.e.s, WIDEST) && Tick(x.e.c, now).1
    ensures Updated(x, now).e.s.una == x.e.s.una && Updated(x, now).e.r.acks == []
    ensures forall d <- Sends(x, now) :: d in Updated(x, now).out
  {
    UpdatedIsFlushed(x, now);
    FlushKeepsSendOk(Unbounded, Ticked(x, now).e, WIDEST);
  }

  lemma LinkedNumbers(x: Peer, y: Peer, now: int)
    requires Linked(x, y) && Tick(x.e.c, now).1
    ensures forall d, w | d in Sends(x, now) && w in d :: FromFlush(x, Updated(x, now).e.s.nxt, w)
    ensures Updated(x, now).e.s.una == x.e.s.una && Updated(x, now).e.r.acks == []
    ensures forall d <- Sends(x, now) :: d in Updated(x, now).out
  {
    SendsNumbers(x, now);
    UpdatedClears(x, now);
  }

  // ---------------------------------------------------------------- half a round

  lemma NumbersRecent(x: Peer, y: Peer, x1: Peer, w: Wire)
    requires Dir(y, x) && WindowsFit(x, y) && AcksFresh(y, x) && FromFlush(x, x1.e.s.nxt, w)
    ensures Recent(x1, y, w)
  {
    NotFarAhead(y, x);
    if w.cmd == CMD_ACK {
      var a :| a in x.e.r.acks && a.0 == w.sn;
      assert y.e.s.nxt <= y.e.s.una + WIDEST;
    }
  }

  lemma FreshInReach(x: Peer, y: Peer, now: int)
    requires Fresh(System(x, y)) && Tick(x.e.c, now).1
    ensures InReach(x, y, now)
  {
    LinkedNumbers(x, y, now);
    forall d <- Sends(x, now)
      ensures Deliverable(Updated(x, now), y, d)
    {
      forall w <- d
        ensures Recent(Updated(x, now), y, w)
      {
        NumbersRecent(x, y, Updated(x, now), w);
      }
    }
  }

  /** What is noted is what was noted before, or has just arrived. */
  lemma {:induction false} ReceiveAllNotes(r: Receiver, ws: seq<Wire>)
    ensures forall a <- ReceiveAll(r, ws).acks :: a in r.acks || exists w <- ws :: w.cmd == CMD_PUSH && w.sn == a.0
    decreases |ws|
  {
    if ws != [] {
      var r1 := ReceiverAbsorb(Unbounded, r, ws[0]);
      AbsorbNotes(r, ws[0]);
      ReceiveAllNotes(r1, ws[1..]);
      forall a <- ReceiveAll(r, ws).acks
        ensures a in r.acks || exists w <- ws :: w.cmd == CMD_PUSH && w.sn == a.0
      {
        assert ws[0] in ws;
      }
    }
  }

  lemma AbsorbNotes(r: Receiver, w: Wire)
    ensures forall a <- ReceiverAbsorb(Unbounded, r, w).acks :: a in r.acks || (w.cmd == CMD_PUSH && w.sn == a.0)
  {
    var noted := r.(acks := r.acks + [(w.sn, w.ts)]);
    PromoteShape(Unbounded, noted.(buf := Insert(Unbounded, noted.buf, Arrived(w))));
  }

  lemma NewAcksFresh(x: Peer, y: Peer, x1: Peer, ds: seq<seq<Wire>>)
    requires y.e.Mss() > 0 && WindowsFit(x, y) && AcksFresh(x, y)
    requires x1.e.s.una == x.e.s.una && x1.e.r.wnd == x.e.r.wnd && 0 <= y.e.r.wnd
    requires forall d <- ds :: d in x1.out
    requires forall d, w | d in ds && w in d :: FromFlush(x, x1.e.s.nxt, w)
    ensures AcksFresh(x1, DeliverAll(y, x1, ds))
  {
    DeliverReceives(y, x1, ds);
    ReceiveAllNotes(y.e.r, Unpack(ds));
    forall a <- DeliverAll(y, x1, ds).e.r.acks
      ensures x1.e.s.una + WIDEST - a.0 < MaxAge(x1)
    {
      if a !in y.e.r.acks {
        var w :| w in Unpack(ds) && w.cmd == CMD_PUSH && w.sn == a.0;
        var d := UnpackMember(ds, w);
      }
    }
  }

  lemma {:induction false} UnpackMember(ds: seq<seq<Wire>>, w: Wire) returns (d: seq<Wire>)
    requires w in Unpack(ds)
    ensures d in ds && w in d
  {
    if w in ds[0] {
      d := ds[0];
    } else {
      d := UnpackMember(ds[1..], w);
    }
  }

  /** After half a round nothing is pending at the first peer, and at the second nothing that is too old. */
  lemma FreshForward(x: Peer, y: Peer, now: int)
    requires Fresh(System(x, y)) && Tick(x.e.c, now).1
    ensures var x1 := Updated(x, now); Fresh(System(x1, DeliverAll(y, x1, Sends(x, now))))
  {
    var x1, ds := Updated(x, now), Sends(x, now);
    LinkedOut(x, y, now);
    LinkedNumbers(x, y, now);
    UpdatedKeeps(x, now);
    DeliverKeeps(x1, y, ds);
    LinkedWindow(x, y);
    NewAcksFresh(x, y, x1, ds);
  }

  lemma LinkedWindow(x: Peer, y: Peer)
    requires Linked(x, y)
    ensures y.e.Mss() > 0 && 0 <= y.e.r.wnd
  {
  }

  lemma FreshSwap(x: Peer, y: Peer)
    requires Fresh(System(x, y))
    ensures Fresh(System(y, x))
  {
  }

  lemma FreshRead(x: Peer, y: Peer)
    requires Fresh(System(x, y))
    ensures Fresh(System(x, ReadDry(y)))
  {
    ReadDryLinked(x, y);
    ReadDryKeeps(y);
  }

  // ---------------------------------------------------------------- whole rounds

  lemma FreshHalf(sys: System, ta: int)
    requires Fresh(sys) && Tick(sys.a.e.c, ta).1
    ensures Fresh(HalfWay(sys, ta))
  {
    FreshForward(sys.a, sys.b, ta);
    FreshRead(Updated(sys.a, ta), DeliverAll(sys.b, Updated(sys.a, ta), Sends(sys.a, ta)));
  }

  lemma HalfClock(sys: System, ta: int)
    requires Linked(sys.a, sys.b) && Tick(sys.a.e.c, ta).1
    ensures HalfWay(sys, ta).b.e.c.updated == sys.b.e.c.updated && HalfWay(sys, ta).b.e.c.tsFlush == sys.b.e.c.tsFlush
  {
    var a1, b1 := RoundOut(sys.a, sys.b, ta);
  }

  lemma FreshRound(sys: System, at: (int, int), next: System)
    requires Fresh(sys) && NextRound(sys, at, next)
    ensures Fresh(next) && InStep(sys, at, next)
  {
    var half := HalfWay(sys, at.0);
    FreshInReach(sys.a, sys.b, at.0);
    FreshHalf(sys, at.0);
    HalfClock(sys, at.0);
    FreshSwap(half.a, half.b);
    FreshInReach(half.b, half.a, at.1);
    FreshForward(half.b, half.a, at.1);
    FreshSwap(next.b, next.a);
    HostRoundIs(sys, at.0, at.1);
  }

  lemma FreshAlwaysReaches()
    ensures forall s, at, s' | Fresh(s) && NextRound(s, at, s') :: Fresh(s') && InStep(s, at, s')
  {
    forall s, at, s' | Fresh(s) && NextRound(s, at, s')
      ensures Fresh(s') && InStep(s, at, s')
    {
      FreshRound(s, at, s');
    }
  }

  lemma LinkedReach(conv: int, ca: Config, cb: Config, moves: seq<Move>)
    requires ConfigOk(ca) && ConfigOk(cb) && Forgetful(NewSystem(conv, ca, cb), moves)
    ensures AllLinked(Run(Unbounded, NewSystem(conv, ca, cb), moves))
    ensures HostRun(NewHosts(conv, ca, cb), RunningMoves(moves))
            == RunningAll(Run(Unbounded, NewSystem(conv, ca, cb), moves))
  {
    NewSystemLinked(conv, ca, cb);
    NewHostsRunning(conv, ca, cb);
    WrapRun(NewSystem(conv, ca, cb), moves);
    RunLinked(NewSystem(conv, ca, cb), moves);
  }

  lemma {:induction false} RunLinked(sys: System, moves: seq<Move>)
    requires AllLinked(sys)
    ensures AllLinked(Run(Unbounded, sys, moves))
    decreases |moves|
  {
    if moves != [] {
      NextLinked(sys, moves[0]);
      RunLinked(Next(Unbounded, sys, moves[0]), moves[1..]);
    }
  }

  /**
   The hosts as they run, after a run of any length over a forgetful network, whatever it lost: if what they still have
   to acknowledge is not too old, any timely loss-free rounds from then on deliver and acknowledge everything, in either
   direction and as soon as after a short run.
   */
  lemma LongBacklogDrains(
    conv: int, ca: Config, cb: Config, moves: seq<Move>, x: Peer, y: Peer, t: seq<Hosts>, times: seq<(int, int)>)
    requires ConfigOk(ca) && ConfigOk(cb) && Forgetful(NewSystem(conv, ca, cb), moves)
    requires var end := Run(Unbounded, NewSystem(conv, ca, cb), moves);
             (x == end.a && y == end.b) || (x == end.b && y == end.a)
    requires WindowsFit(x, y) && AcksFresh(x, y) && AcksFresh(y, x) && Roomy(y.e.r.wnd)
    requires RoundsFrom(Running(x), Running(y), t, times)
    ensures var end := HostRun(NewHosts(conv, ca, cb), RunningMoves(moves));
            (Running(x) == end.a && Running(y) == end.b) || (Running(x) == end.b && Running(y) == end.a)
    ensures AllDrained(Running(x), t)
  {
    LinkedReach(conv, ca, cb, moves);
    FreshDrains(x, y, t, times);
  }

  lemma FreshDrains(x: Peer, y: Peer, t: seq<Hosts>, times: seq<(int, int)>)
    requires Fresh(System(x, y)) && Roomy(y.e.r.wnd) && RoundsFrom(Running(x), Running(y), t, times)
    ensures AllDrained(Running(x), t)
  {
    var reach := (s: System) => Fresh(s);
    FreshRead(x, y);
    RunningReadDry(x, y);
    ReadReady(x, y);
    FreshAlwaysReaches();
    ReadyStands(System(x, ReadDry(y)), reach);
    forall i | Work(Running(x).e) <= i < |t|
      ensures HostsDrained(t[i], x.accepted)
    {
      HostsDrain(t, times, i, x.accepted, reach);
    }
  }
}
