/** Round-trip samples are round trips. */
module KcpEcho {
  // Every acknowledgement echoes the number and the time of a data segment that its receiver has sent, and that time is
  // what the sender's clock showed at some moment of the run; so the sample that `input` takes is the time since then
  // (tuya_p2p/_kcp_python.py:271-274, 284-286, 465-474, 549).

  import opened Serial
  import opened KcpModel
  import opened KcpReceive
  import opened KcpSystem
  import opened KcpPacking
  import opened KcpTiming
  import opened KcpFlush

  // ---------------------------------------------------------------- echoes

  /** A data segment of that number and time is among what has been sent. */
  ghost predicate Carried(out: set<seq<Wire>>, sn: int, ts: int) {
    exists d, w | d in out && w in d :: w.cmd == CMD_PUSH && w.sn == sn && w.ts == ts
  }

  ghost predicate DataOk(n: Numbering, out: set<seq<Wire>>, times: set<int>) {
    forall d, w | d in out && w in d && w.cmd == CMD_PUSH :: Storable(n, w.sn) && 0 <= w.ts < M32 && w.ts in times
  }

  ghost predicate AcksOk(out: set<seq<Wire>>, p: Peer) {
    && (forall a <- p.e.r.acks :: Carried(out, a.0, a.1))
    && (forall d, w | d in p.out && w in d && w.cmd == CMD_ACK :: Carried(out, w.sn, w.ts))
  }

  /** What x has sent shows times out of the given set, and what y acknowledges echoes it. */
  ghost predicate Echoes(n: Numbering, x: Peer, y: Peer, times: set<int>) {
    Sized(x.e) && Sized(y.e) && DataOk(n, x.out, times) && AcksOk(x.out, y)
  }

  lemma FlushData(n: Numbering, e: Endpoint, d: seq<Wire>, w: Wire)
    requires Sized(e) && d in Datagrams(n, e) && w in d && w.cmd == CMD_PUSH
    ensures Storable(n, w.sn) && w.ts == U32(e.c.current)
  {
    EmittedExplained(n, e);
    var seg := InDatagram(n, e, d, w);
    var j := SentFrom(n, e, seg);
    SentNow(n, e, seg);
    NormHolds(n, seg.sn);
  }

  lemma SentNow(n: Numbering, e: Endpoint, x: Segment)
    requires x in Emitted(n, e) && x.cmd == CMD_PUSH
    ensures x.ts == e.c.current
  {
    var st, buf := StampOf(e), Admitted(n, e).buf;
    OutgoingMembers(e.c, st, buf);
    assert x in Outgoing(e.c, st, buf);
  }

  lemma FlushAcks(n: Numbering, e: Endpoint, d: seq<Wire>, w: Wire) returns (a: (int, int))
    requires Sized(e) && d in Datagrams(n, e) && w in d && w.cmd == CMD_ACK
    ensures a in e.r.acks && w.sn == Norm(n, a.0) && w.ts == U32(a.1)
  {
    EmittedExplained(n, e);
    var seg := InDatagram(n, e, d, w);
    assert Explained(n, e, seg);
    a := (seg.sn, seg.ts);
  }

  lemma FlushSends(n: Numbering, x: Peer, times: set<int>)
    requires Sized(x.e) && DataOk(n, x.out, times)
    ensures var x' := FlushPeer(n, x);
            DataOk(n, x'.out, times + {U32(x.e.c.current)}) && x.out <= x'.out && Sized(x'.e)
  {
    FlushKeepsSized(n, x.e);
    var x' := FlushPeer(n, x);
    forall d, w | d in x'.out && w in d && w.cmd == CMD_PUSH
      ensures Storable(n, w.sn) && 0 <= w.ts < M32 && w.ts in times + {U32(x.e.c.current)}
    {
      if d !in x.out {
        FlushData(n, x.e, d, w);
      }
    }
  }

  lemma FlushEchoes(n: Numbering, out: set<seq<Wire>>, y: Peer, times: set<int>)
    requires Sized(y.e) && DataOk(n, out, times) && AcksOk(out, y)
    ensures AcksOk(out, FlushPeer(n, y)) && Sized(FlushPeer(n, y).e)
  {
    FlushKeepsSized(n, y.e);
    var y' := FlushPeer(n, y);
    forall d, w | d in y'.out && w in d && w.cmd == CMD_ACK
      ensures Carried(out, w.sn, w.ts)
    {
      if d !in y.out {
        var a := FlushAcks(n, y.e, d, w);
        assert Carried(out, a.0, a.1);
        NormHolds(n, a.0);
      }
    }
  }

  lemma MoreCarried(out: set<seq<Wire>>, out': set<seq<Wire>>, y: Peer)
    requires out <= out' && AcksOk(out, y)
    ensures AcksOk(out', y)
  {
    forall a <- y.e.r.acks
      ensures Carried(out', a.0, a.1)
    {
      assert Carried(out, a.0, a.1);
    }
    forall d, w | d in y.out && w in d && w.cmd == CMD_ACK
      ensures Carried(out', w.sn, w.ts)
    {
      assert Carried(out, w.sn, w.ts);
    }
  }

  /** A received data segment is noted with its own time. */
  lemma {:induction false} AbsorbAllNotes(n: Numbering, e: Endpoint, ws: seq<Wire>)
    ensures forall a <- AbsorbAll(n, e, ws).r.acks ::
      a in e.r.acks || exists w <- ws :: w.cmd == CMD_PUSH && w.sn == a.0 && w.ts == a.1
    decreases |ws|
  {
    if ws != [] {
      AbsorbNotesTime(n, e.r, ws[0]);
      AbsorbAllNotes(n, Absorb(n, e, ws[0]), ws[1..]);
      forall a <- AbsorbAll(n, e, ws).r.acks
        ensures a in e.r.acks || exists w <- ws :: w.cmd == CMD_PUSH && w.sn == a.0 && w.ts == a.1
      {
        assert ws[0] in ws;
      }
    }
  }

  lemma AbsorbNotesTime(n: Numbering, r: Receiver, w: Wire)
    ensures forall a <- ReceiverAbsorb(n, r, w).acks ::
      a in r.acks || (w.cmd == CMD_PUSH && w.sn == a.0 && w.ts == a.1)
  {
    var noted := r.(acks := r.acks + [(w.sn, w.ts)]);
    PromoteShape(n, noted.(buf := Insert(n, noted.buf, Arrived(w))));
  }

  lemma InputEchoes(n: Numbering, out: set<seq<Wire>>, y: Peer, d: seq<Wire>)
    requires y.e.Mss() > 0 && Sized(y.e) && AcksOk(out, y) && d in out
    ensures var y' := y.(e := Input(n, y.e, d)); AcksOk(out, y') && Sized(y'.e)
  {
    InputKeepsSized(n, y.e, d);
    AbsorbAllNotes(n, y.e, d);
    forall a <- Input(n, y.e, d).r.acks
      ensures Carried(out, a.0, a.1)
    {
      if a !in y.e.r.acks {
        var w :| w in d && w.cmd == CMD_PUSH && w.sn == a.0 && w.ts == a.1;
      }
    }
  }

  lemma RecvKeepsAcks(n: Numbering, r: Receiver)
    ensures Recv(n, r).0.acks == r.acks
  {
    PromoteShape(n, r.(queue := r.queue[MessageSpan(r.queue)..]));
  }

  lemma RecvEchoes(n: Numbering, out: set<seq<Wire>>, y: Peer)
    requires Sized(y.e) && AcksOk(out, y)
    ensures var y' := y.(e := y.e.(r := Recv(n, y.e.r).0)); AcksOk(out, y') && Sized(y'.e)
  {
    RecvKeepsAcks(n, y.e.r);
  }

  /** The acknowledging peer acts. */
  lemma AckerActs(n: Numbering, x: Peer, y: Peer, a: Action, times: set<int>)
    requires y.e.Mss() > 0 && Echoes(n, x, y, times)
    ensures Echoes(n, x, Act(n, y, x, a), times)
  {
    match a
    case DoSend(data) => SendKeepsSized(y.e, data);
    case DoRecv => RecvEchoes(n, x.out, y);
    case DoFlush => FlushEchoes(n, x.out, y, times);
    case DoUpdate(now) =>
      var y1 := y.(e := y.e.(c := Tick(y.e.c, now).0));
      FlushEchoes(n, x.out, y1, times);
    case DoTune(nodelay, interval, resend, nc) =>
    case DoInput(d) =>
      if d in x.out {
        InputEchoes(n, x.out, y, d);
      }
  }

  lemma FlushKeepsCurrent(n: Numbering, e: Endpoint)
    ensures Flushed(n, e).c.current == e.c.current
  {
    FlushKeepsClock(n, e);
  }

  /** The sending peer acts. */
  lemma SenderActs(n: Numbering, x: Peer, y: Peer, a: Action, times: set<int>)
    requires x.e.Mss() > 0 && Echoes(n, x, y, times)
    ensures var x' := Act(n, x, y, a); Echoes(n, x', y, times + {U32(x'.e.c.current)})
  {
    match a
    case DoSend(data) => SendKeepsSized(x.e, data);
    case DoRecv =>
    case DoFlush =>
      FlushSends(n, x, times);
      FlushKeepsCurrent(n, x.e);
      MoreCarried(x.out, FlushPeer(n, x).out, y);
    case DoUpdate(now) =>
      var x1 := x.(e := x.e.(c := Tick(x.e.c, now).0));
      FlushSends(n, x1, times);
      FlushKeepsCurrent(n, x1.e);
      MoreCarried(x.out, FlushPeer(n, x1).out, y);
    case DoTune(nodelay, interval, resend, nc) =>
    case DoInput(d) => InputKeepsSized(n, x.e, d);
  }

  // ---------------------------------------------------------------- whole runs

  /** The peer whose segments are acknowledged: the first, or the second. */
  function Mine(sys: System, first: bool): Peer { if first then sys.a else sys.b }

  function Theirs(sys: System, first: bool): Peer { if first then sys.b else sys.a }

  /** What that peer's clock shows in the course of a run. */
  function Clocks(n: Numbering, sys: System, moves: seq<Move>, first: bool): set<int>
    requires sys.a.e.Mss() > 0 && sys.b.e.Mss() > 0
    decreases |moves|
  {
    {U32(Mine(sys, first).e.c.current)}
    + if moves == [] then {}
      else
        ActKeepsMtu(n, sys.a, sys.b, moves[0].act);
        ActKeepsMtu(n, sys.b, sys.a, moves[0].act);
        Clocks(n, Next(n, sys, moves[0]), moves[1..], first)
  }

  lemma MoveEchoes(n: Numbering, sys: System, m: Move, times: set<int>, first: bool)
    requires sys.a.e.Mss() > 0 && sys.b.e.Mss() > 0 && Echoes(n, Mine(sys, first), Theirs(sys, first), times)
    requires U32(Mine(Next(n, sys, m), first).e.c.current) in times
    ensures var sys1 := Next(n, sys, m); Echoes(n, Mine(sys1, first), Theirs(sys1, first), times)
  {
    if m.MoveA? == first {
      SenderActs(n, Mine(sys, first), Theirs(sys, first), m.act, times);
      assert times + {U32(Mine(Next(n, sys, m), first).e.c.current)} == times;
    } else {
      AckerActs(n, Mine(sys, first), Theirs(sys, first), m.act, times);
    }
  }

  lemma ClocksStep(n: Numbering, sys: System, moves: seq<Move>, first: bool)
    requires sys.a.e.Mss() > 0 && sys.b.e.Mss() > 0 && moves != []
    ensures var sys1 := Next(n, sys, moves[0]);
            && sys1.a.e.Mss() > 0 && sys1.b.e.Mss() > 0
            && U32(Mine(sys1, first).e.c.current) in Clocks(n, sys1, moves[1..], first)
            && Clocks(n, sys1, moves[1..], first) <= Clocks(n, sys, moves, first)
            && Run(n, sys, moves) == Run(n, sys1, moves[1..])
  {
    ActKeepsMtu(n, sys.a, sys.b, moves[0].act);
    ActKeepsMtu(n, sys.b, sys.a, moves[0].act);
  }

  lemma {:induction false} RunEchoes(n: Numbering, sys: System, moves: seq<Move>, times: set<int>, first: bool)
    requires sys.a.e.Mss() > 0 && sys.b.e.Mss() > 0
    requires Echoes(n, Mine(sys, first), Theirs(sys, first), times) && Clocks(n, sys, moves, first) <= times
    ensures var end := Run(n, sys, moves); Echoes(n, Mine(end, first), Theirs(end, first), times)
    decreases |moves|
  {
    if moves != [] {
      ClocksStep(n, sys, moves, first);
      MoveEchoes(n, sys, moves[0], times, first);
      RunEchoes(n, Next(n, sys, moves[0]), moves[1..], times, first);
    }
  }

  /** Each such reading is what the clock shows after some of the moves. */
  lemma {:induction false} ClockWasRead(n: Numbering, sys: System, moves: seq<Move>, t: int, first: bool)
    returns (i: nat)
    requires sys.a.e.Mss() > 0 && sys.b.e.Mss() > 0 && t in Clocks(n, sys, moves, first)
    ensures i <= |moves| && t == U32(Mine(Run(n, sys, moves[..i]), first).e.c.current)
    decreases |moves|
  {
    i := 0;
    if t != U32(Mine(sys, first).e.c.current) {
      ActKeepsMtu(n, sys.a, sys.b, moves[0].act);
      ActKeepsMtu(n, sys.b, sys.a, moves[0].act);
      var k := ClockWasRead(n, Next(n, sys, moves[0]), moves[1..], t, first);
      i := k + 1;
      assert moves[..i][1..] == moves[1..][..k];
    } else {
      assert moves[..0] == [];
    }
  }

  /** The peer has acknowledged this number with this time, in a datagram that it has sent. */
  ghost predicate Acknowledged(p: Peer, sn: int, ts: int) {
    exists d, w | d in p.out && w in d :: w.cmd == CMD_ACK && w.sn == sn && w.ts == ts
  }

  /**
   In every run, whatever is lost, repeated or reordered, an acknowledgement echoes number and time of a data segment
   that the other peer has sent, and that time is what its clock showed at some point of the run; in both directions.
   */
  lemma AcksEchoTimes(
    n: Numbering, conv: int, ca: Config, cb: Config, moves: seq<Move>, first: bool, sn: int, ts: int) returns (i: nat)
    requires ConfigOk(ca) && ConfigOk(cb)
    requires Acknowledged(Theirs(Run(n, NewSystem(conv, ca, cb), moves), first), sn, ts)
    ensures Carried(Mine(Run(n, NewSystem(conv, ca, cb), moves), first).out, sn, ts)
    ensures i <= |moves| && ts == U32(Mine(Run(n, NewSystem(conv, ca, cb), moves[..i]), first).e.c.current)
  {
    var sys := NewSystem(conv, ca, cb);
    RunEchoes(n, sys, moves, Clocks(n, sys, moves, first), first);
    assert Carried(Mine(Run(n, sys, moves), first).out, sn, ts);
    i := ClockWasRead(n, sys, moves, ts, first);
  }

  // ---------------------------------------------------------------- the sample

  /**
   The sample that an acknowledgement of a segment sent at true time t gives at true time now is the time since then:
   the first one becomes the estimate, later ones move it and the deviation towards them; one from the future is
   ignored.
   */
  lemma SampleIsElapsed(c: Control, w: Wire, now: int, t: int)
    requires w.cmd == CMD_ACK && c.current == U32(now) && w.ts == U32(t) && -HALF <= now - t < HALF
    requires c.srtt >= 0 && c.rttval >= 0
    ensures var c', rtt := ControlAbsorb(c, w), now - t;
            && (rtt < 0 ==> c'.srtt == c.srtt && c'.rttval == c.rttval && c'.rto == c.rto)
            && (rtt >= 0 && c.srtt == 0 ==> c'.srtt == rtt && 2 * c'.rttval <= rtt <= 2 * c'.rttval + 1)
            && (rtt >= 1 && c.srtt >= 1 ==>
                  && 8 * c'.srtt <= 7 * c.srtt + rtt <= 8 * c'.srtt + 7
                  && 4 * c'.rttval <= 3 * c.rttval + Distance(rtt, c.srtt) <= 4 * c'.rttval + 3)
  {
    ItimediffExact(now, t);
  }
}
