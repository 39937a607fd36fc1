/** The system as it really runs, on bytes and 32-bit sequence numbers. */
module KcpRefine {
  // It refines the system with unbounded numbers: as long as the network forgets a datagram before the numbers it
  // carries are nearly half a cycle old, both do the same.

  import opened Bytes
  import opened Serial
  import opened KcpModel
  import opened KcpWire
  import opened KcpReceive
  import opened KcpSend
  import opened KcpStream
  import opened KcpSystem
  import opened KcpPacking
  import opened KcpWrap

  /** An endpoint as it runs, and the bytes it has sent. */
  datatype Host = Host(e: Endpoint, out: set<Bytes>, accepted: seq<Bytes>, got: seq<Bytes>)

  datatype HostAction =
    | HostSend(data: Bytes)
    | HostRecv
    | HostFlush
    | HostUpdate(now: int)
    | HostTune(nodelay: int, interval: int, resend: int, nc: int)
    | HostInput(packet: Bytes)

  function FlushHost(p: Host): Host {
    p.(e := Flushed(Wrapping, p.e), out := p.out + (set d <- Datagrams(Wrapping, p.e) :: Raw(d)))
  }

  function HostAct(p: Host, q: Host, a: HostAction): Host
    requires p.e.Mss() > 0
  {
    match a
    case HostSend(data) =>
      if SendStatus(p.e.Mss(), data) == 0
      then p.(e := Send(p.e, data), accepted := p.accepted + [data])
      else p
    case HostRecv =>
      var (r, m) := Recv(Wrapping, p.e.r);
      p.(e := p.e.(r := r), got := if m.Some? then p.got + [m.value] else p.got)
    case HostFlush => FlushHost(p)
    case HostUpdate(now) =>
      var (c, due) := Tick(p.e.c, now);
      var p1 := p.(e := p.e.(c := c));
      if due then FlushHost(p1) else p1
    case HostTune(nodelay, interval, resend, nc) =>
      p.(e := p.e.(c := SetNodelay(p.e.c, nodelay, interval, resend, nc)))
    case HostInput(packet) =>
      if packet in q.out then p.(e := InputPacket(p.e, packet).0) else p
  }

  // ---------------------------------------------------------------- the refinement relation

  function RawOf(d: seq<Wire>): Bytes {
    Raw(WrapWires(d))
  }

  function RawOut(out: set<seq<Wire>>): set<Bytes> {
    set d <- out :: RawOf(d)
  }

  /** The running host that an unbounded peer stands for. */
  function Running(p: Peer): Host {
    Host(WrapEndpoint(p.e), RawOut(p.out), p.accepted, p.got)
  }

  function RunningAction(a: Action): HostAction {
    match a
    case DoSend(data) => HostSend(data)
    case DoRecv => HostRecv
    case DoFlush => HostFlush
    case DoUpdate(now) => HostUpdate(now)
    case DoTune(nodelay, interval, resend, nc) => HostTune(nodelay, interval, resend, nc)
    case DoInput(d) => HostInput(RawOf(d))
  }

  /** What a peer holds and has sent can be packed and read. */
  ghost predicate Sound(p: Peer) {
    && Sized(p.e) && p.e.r.wnd < HALF - 0x2_0000
    && forall d <- p.out :: d != [] && forall w <- d :: WireOk(p.e.conv, w)
  }

  ghost predicate Linked(x: Peer, y: Peer) {
    Dir(x, y) && Dir(y, x) && Sound(x) && Sound(y) && x.e.conv == y.e.conv
  }

  /** How old a number may be when it arrives: not quite half a cycle. */
  function MaxAge(y: Peer): int {
    HALF - y.e.r.wnd
  }

  /** A segment from x that arrives at y carries no number that is too old. */
  ghost predicate Recent(x: Peer, y: Peer, w: Wire) {
    && (w.cmd == CMD_PUSH ==> x.e.s.nxt - w.sn < MaxAge(y))
    && y.e.s.nxt - w.una < MaxAge(y)
    && (w.cmd == CMD_ACK ==> y.e.s.nxt - w.sn < MaxAge(y))
  }

  /** The network has not forgotten the datagram, nor kept it too long. */
  ghost predicate Deliverable(x: Peer, y: Peer, d: seq<Wire>) {
    d in x.out && forall w <- d :: Recent(x, y, w)
  }

  // ---------------------------------------------------------------- soundness is kept

  lemma FlushKeepsSound(p: Peer)
    requires Sound(p)
    ensures Sound(FlushPeer(Unbounded, p))
  {
    FlushKeepsSized(Unbounded, p.e);
    FlushPacks(Unbounded, p.e);
    assert Flushed(Unbounded, p.e).r.wnd == p.e.r.wnd;
  }

  lemma {:induction false} AbsorbAllWindow(n: Numbering, e: Endpoint, ws: seq<Wire>)
    ensures AbsorbAll(n, e, ws).r.wnd == e.r.wnd
    decreases |ws|
  {
    if ws != [] {
      AbsorbWindow(n, e.r, ws[0]);
      AbsorbAllWindow(n, Absorb(n, e, ws[0]), ws[1..]);
    }
  }

  lemma {:induction false} AbsorbAllSubset(e: Endpoint, ws: seq<Wire>)
    ensures AbsorbAll(Unbounded, e, ws).s.nxt == e.s.nxt
    decreases |ws|
  {
    if ws != [] {
      AbsorbAllSubset(Absorb(Unbounded, e, ws[0]), ws[1..]);
    }
  }

  lemma AbsorbWindow(n: Numbering, r: Receiver, w: Wire)
    ensures ReceiverAbsorb(n, r, w).wnd == r.wnd
  {
    var noted := r.(acks := r.acks + [(w.sn, w.ts)]);
    PromoteShape(n, noted.(buf := Insert(n, noted.buf, Arrived(w))));
  }

  lemma ActKeepsSound(p: Peer, q: Peer, a: Action)
    requires Sound(p)
    ensures Sound(Act(Unbounded, p, q, a)) && Act(Unbounded, p, q, a).e.conv == p.e.conv
  {
    match a
    case DoSend(data) => SendKeepsSized(p.e, data);
    case DoRecv => PromoteShape(Unbounded, p.e.r.(queue := p.e.r.queue[MessageSpan(p.e.r.queue)..]));
    case DoFlush => FlushKeepsSound(p);
    case DoUpdate(now) =>
      var p1 := p.(e := p.e.(c := Tick(p.e.c, now).0));
      assert Sound(p1);
      FlushKeepsSound(p1);
    case DoTune(nodelay, interval, resend, nc) =>
    case DoInput(d) =>
      InputKeepsSized(Unbounded, p.e, d);
      AbsorbAllWindow(Unbounded, p.e, d);
  }

  // ---------------------------------------------------------------- one arriving datagram

  /** The sender cannot run further ahead of the receiver than the receive window and the send window together. */
  lemma NotFarAhead(x: Peer, y: Peer)
    requires Dir(x, y)
    ensures x.e.s.nxt <= y.e.r.nxt + y.e.r.wnd + WIDEST
  {
    var sn := x.e.s.una - 1;
    if 0 <= sn {
      assert sn < x.e.s.nxt;
      BufferInside(x.e.s);
      assert sn !in Sns(x.e.s.buf);
      assert Got(y.e.r, sn);
      if sn >= y.e.r.nxt {
        var i :| 0 <= i < |y.e.r.buf| && y.e.r.buf[i].sn == sn;
        assert Off(Unbounded, y.e.r, y.e.r.buf[i].sn) < y.e.r.wnd;
      }
    }
  }

  /** The receiver never has a fragment that was not numbered. */
  lemma GotNumbered(x: Peer, y: Peer, sn: int)
    requires Dir(x, y) && Got(y.e.r, sn)
    ensures 0 <= sn < x.e.s.nxt
  {
  }

  lemma WrapAbsorb(x: Peer, y: Peer, w: Wire)
    requires Linked(x, y) && Genuine(x, w) && Truthful(x.e.r, w) && Recent(x, y, w)
    ensures Absorb(Wrapping, WrapEndpoint(y.e), WrapWire(w)) == WrapEndpoint(Absorb(Unbounded, y.e, w))
  {
    NotFarAhead(x, y);
    assert y.e.s.nxt - y.e.s.una <= WIDEST;
    if w.cmd == CMD_ACK {
      GotNumbered(y, x, w.sn);
    }
    WrapReceiverAbsorb(y.e.r, w);
    WrapSenderAbsorb(y.e.s, w);
  }

  /** Marks only ever hold acknowledged numbers that are recent enough. */
  ghost predicate MarkOk(y: Peer, m: Mark) {
    m.Newest? ==> 0 <= m.sn < y.e.s.nxt && y.e.s.nxt - m.sn < MaxAge(y)
  }

  /** Absorbing one segment leaves the other conditions of the refinement in place. */
  lemma AbsorbLinked(x: Peer, y: Peer, w: Wire)
    requires Linked(x, y) && Genuine(x, w) && Truthful(x.e.r, w)
    ensures var y1 := y.(e := Absorb(Unbounded, y.e, w));
            Linked(x, y1) && y1.e.s.nxt == y.e.s.nxt && y1.e.r.wnd == y.e.r.wnd
  {
    ReceiverAbsorbsOne(x, y, w);
    SenderAbsorbsOne(y, x, w);
    AbsorbSubset(Unbounded, y.e.s, w);
    AbsorbWindow(Unbounded, y.e.r, w);
  }

  lemma MarkStep(x: Peer, y: Peer, m: Mark, w: Wire)
    requires Linked(x, y) && MarkOk(y, m) && Truthful(x.e.r, w) && Recent(x, y, w)
    ensures MarkAbsorb(Wrapping, WrapMark(m), WrapWire(w)) == WrapMark(MarkAbsorb(Unbounded, m, w))
    ensures MarkOk(y, MarkAbsorb(Unbounded, m, w))
  {
    if w.cmd == CMD_ACK {
      GotNumbered(y, x, w.sn);
    }
    WrapMarkAbsorb(m, w);
  }

  /** Segments the receiver y may absorb. */
  ghost predicate Absorbable(x: Peer, y: Peer, ws: seq<Wire>)
    requires x.e.Mss() > 0
  {
    forall w <- ws :: Genuine(x, w) && Truthful(x.e.r, w) && Recent(x, y, w)
  }

  lemma StillAbsorbable(x: Peer, y: Peer, y1: Peer, ws: seq<Wire>)
    requires x.e.Mss() > 0 && Absorbable(x, y, ws) && ws != []
    requires y1.e.s.nxt == y.e.s.nxt && y1.e.r.wnd == y.e.r.wnd
    ensures Absorbable(x, y1, ws[1..])
  {
    forall w <- ws[1..]
      ensures Genuine(x, w) && Truthful(x.e.r, w) && Recent(x, y1, w)
    {
      assert w in ws;
    }
  }

  lemma {:induction false} LinkedAbsorbAll(x: Peer, y: Peer, ws: seq<Wire>)
    requires Linked(x, y) && forall w <- ws :: Genuine(x, w) && Truthful(x.e.r, w)
    ensures Linked(x, y.(e := AbsorbAll(Unbounded, y.e, ws)))
    decreases |ws|
  {
    ReceiverAbsorbs(x, y, ws);
    SenderAbsorbs(y, x, ws);
    AbsorbAllKeepsSized(Unbounded, y.e, ws);
    AbsorbAllWindow(Unbounded, y.e, ws);
  }

  lemma {:induction false} WrapMarkAll(x: Peer, y: Peer, m: Mark, ws: seq<Wire>)
    requires Linked(x, y) && MarkOk(y, m) && Absorbable(x, y, ws)
    ensures MarkAll(Wrapping, WrapMark(m), WrapWires(ws)) == WrapMark(MarkAll(Unbounded, m, ws))
    ensures MarkOk(y, MarkAll(Unbounded, m, ws))
    decreases |ws|
  {
    if ws != [] {
      assert ws[0] in ws;
      MarkStep(x, y, m, ws[0]);
      assert WrapWires(ws)[1..] == WrapWires(ws[1..]);
      WrapMarkAll(x, y, MarkAbsorb(Unbounded, m, ws[0]), ws[1..]);
    }
  }

  /** Absorbing the first segment, in both numberings, leaves the rest absorbable. */
  lemma WrapFirst(x: Peer, y: Peer, ws: seq<Wire>)
    requires Linked(x, y) && Absorbable(x, y, ws) && ws != []
    ensures var y1 := y.(e := Absorb(Unbounded, y.e, ws[0]));
            && Absorb(Wrapping, WrapEndpoint(y.e), WrapWire(ws[0])) == WrapEndpoint(y1.e)
            && Linked(x, y1) && Absorbable(x, y1, ws[1..])
  {
    assert ws[0] in ws;
    WrapAbsorb(x, y, ws[0]);
    AbsorbLinked(x, y, ws[0]);
    StillAbsorbable(x, y, y.(e := Absorb(Unbounded, y.e, ws[0])), ws);
  }

  lemma {:induction false} WrapAbsorbAll(x: Peer, y: Peer, ws: seq<Wire>)
    requires Linked(x, y) && Absorbable(x, y, ws)
    ensures AbsorbAll(Wrapping, WrapEndpoint(y.e), WrapWires(ws)) == WrapEndpoint(AbsorbAll(Unbounded, y.e, ws))
    decreases |ws|
  {
    if ws != [] {
      WrapFirst(x, y, ws);
      WrapAbsorbAll(x, y.(e := Absorb(Unbounded, y.e, ws[0])), ws[1..]);
      assert WrapWires(ws)[1..] == WrapWires(ws[1..]);
    }
  }

  lemma WrapSettle(x: Peer, y: Peer, oldUna: int, m: Mark)
    requires Linked(x, y) && MarkOk(y, m)
    requires 0 <= y.e.s.una - oldUna < HALF
    ensures Settle(Wrapping, WrapEndpoint(y.e), U32(oldUna), WrapMark(m))
            == WrapEndpoint(Settle(Unbounded, y.e, oldUna, m))
  {
    NearDiff(y.e.s.una, oldUna);
    if m.Newest? {
      WrapParseFastack(y.e.s, m.sn, m.ts);
    }
  }

  lemma GenuineFits(x: Peer, d: seq<Wire>)
    requires Sound(x) && d in x.out
    ensures AllFit(WrapWires(d)) && Parse(x.e.conv, RawOf(d)) == Parsed(WrapWires(d), 0)
  {
    forall w <- WrapWires(d)
      ensures WireOk(x.e.conv, w) && Fits(w)
    {
      var i :| 0 <= i < |d| && w == WrapWire(d[i]);
      assert d[i] in d;
    }
    RawRoundTrip(x.e.conv, WrapWires(d));
  }

  lemma WrapInput(x: Peer, y: Peer, d: seq<Wire>)
    requires Linked(x, y) && Deliverable(x, y, d)
    ensures InputPacket(WrapEndpoint(y.e), RawOf(d)) == (WrapEndpoint(Input(Unbounded, y.e, d)), 0)
  {
    GenuineFits(x, d);
    ArrivingIsAbsorbable(x, y, d);
    WrapAbsorbAll(x, y, d);
    WrapMarkAll(x, y, NoAck, d);
    WrapSettled(x, y, d);
    InputFromParts(y.e, d);
  }

  lemma ArrivingIsAbsorbable(x: Peer, y: Peer, d: seq<Wire>)
    requires Dir(x, y) && Dir(y, x) && Deliverable(x, y, d)
    ensures Absorbable(x, y, d)
  {
    forall w <- d
      ensures Genuine(x, w) && Truthful(x.e.r, w) && Recent(x, y, w)
    {
    }
  }

  /** The end of `input` agrees in both numberings. */
  lemma WrapSettled(x: Peer, y: Peer, d: seq<Wire>)
    requires Linked(x, y) && Absorbable(x, y, d) && MarkOk(y, MarkAll(Unbounded, NoAck, d))
    ensures var e1, m := AbsorbAll(Unbounded, y.e, d), MarkAll(Unbounded, NoAck, d);
            Settle(Wrapping, WrapEndpoint(e1), U32(y.e.s.una), WrapMark(m))
            == WrapEndpoint(Settle(Unbounded, e1, y.e.s.una, m))
  {
    LinkedAbsorbAll(x, y, d);
    AbsorbAllKeepsSendOk(Unbounded, y.e, WIDEST, d);
    AbsorbAllWindow(Unbounded, y.e, d);
    AbsorbAllSubset(y.e, d);
    WrapSettle(x, y.(e := AbsorbAll(Unbounded, y.e, d)), y.e.s.una, MarkAll(Unbounded, NoAck, d));
  }

  lemma InputFromParts(e: Endpoint, d: seq<Wire>)
    requires e.Mss() > 0 && Parse(e.conv, RawOf(d)) == Parsed(WrapWires(d), 0)
    requires AbsorbAll(Wrapping, WrapEndpoint(e), WrapWires(d)) == WrapEndpoint(AbsorbAll(Unbounded, e, d))
    requires MarkAll(Wrapping, NoAck, WrapWires(d)) == WrapMark(MarkAll(Unbounded, NoAck, d))
    requires var e1, m := AbsorbAll(Unbounded, e, d), MarkAll(Unbounded, NoAck, d);
             Settle(Wrapping, WrapEndpoint(e1), U32(e.s.una), WrapMark(m))
             == WrapEndpoint(Settle(Unbounded, e1, e.s.una, m))
    ensures InputPacket(WrapEndpoint(e), RawOf(d)) == (WrapEndpoint(Input(Unbounded, e, d)), 0)
  {
  }

  // ---------------------------------------------------------------- one move

  lemma RawSets(ds: seq<seq<Wire>>)
    ensures (set d <- WrapDatagrams(ds) :: Raw(d)) == (set d <- ds :: RawOf(d))
  {
    var wrapped := WrapDatagrams(ds);
    forall d <- wrapped
      ensures Raw(d) in (set d <- ds :: RawOf(d))
    {
      var i :| 0 <= i < |wrapped| && wrapped[i] == d;
      assert ds[i] in ds && RawOf(ds[i]) == Raw(d);
    }
    forall d <- ds
      ensures RawOf(d) in (set d <- wrapped :: Raw(d))
    {
      var i :| 0 <= i < |ds| && ds[i] == d;
      assert wrapped[i] in wrapped && RawOf(d) == Raw(wrapped[i]);
    }
  }

  lemma RawUnion(out: set<seq<Wire>>, ds: seq<seq<Wire>>)
    ensures RawOut(out + (set d <- ds)) == RawOut(out) + (set d <- ds :: RawOf(d))
  {
  }

  lemma WrapFlush(p: Peer)
    requires ControlOk(p.e.c) && SendOk(Unbounded, p.e.s, WIDEST)
    ensures FlushHost(Running(p)) == Running(FlushPeer(Unbounded, p))
  {
    var ds := Datagrams(Unbounded, p.e);
    WrapFlushed(p.e);
    WrapFlushDatagrams(p.e);
    RawSets(ds);
    RawUnion(p.out, ds);
  }

  /** Only datagrams the network still has, and none that is too old. */
  ghost predicate Allowed(x: Peer, y: Peer, a: Action) {
    a.DoInput? ==> Deliverable(x, y, a.d)
  }

  lemma WrapSend(e: Endpoint, data: Bytes)
    requires e.Mss() > 0
    ensures Send(WrapEndpoint(e), data) == WrapEndpoint(Send(e, data))
  {
    var more := UnsentAll(Fragments(e.Mss(), data));
    WrapSegmentsAppend(e.s.queue, more);
    assert WrapSegments(more) == more;
  }

  lemma WrapFlushMove(p: Peer, q: Peer)
    requires PeerOk(p) && SendOk(Unbounded, p.e.s, WIDEST)
    ensures HostAct(Running(p), Running(q), HostFlush) == Running(Act(Unbounded, p, q, DoFlush))
  {
    WrapFlush(p);
  }

  lemma WrapUpdateMove(p: Peer, q: Peer, now: int)
    requires PeerOk(p) && SendOk(Unbounded, p.e.s, WIDEST)
    ensures HostAct(Running(p), Running(q), HostUpdate(now)) == Running(Act(Unbounded, p, q, DoUpdate(now)))
  {
    WrapFlush(Ticked(p, now));
    ActUpdate(Unbounded, p, q, now);
    HostActUpdate(p, Running(q), now);
  }

  lemma HostActUpdate(p: Peer, q: Host, now: int)
    requires p.e.Mss() > 0
    ensures var p1 := Running(Ticked(p, now));
            HostAct(Running(p), q, HostUpdate(now)) == if Tick(p.e.c, now).1 then FlushHost(p1) else p1
  {
  }

  lemma WrapSendMove(p: Peer, q: Peer, data: Bytes)
    requires p.e.Mss() > 0
    ensures HostAct(Running(p), Running(q), HostSend(data)) == Running(Act(Unbounded, p, q, DoSend(data)))
  {
    WrapSend(p.e, data);
  }

  lemma WrapRecvMove(p: Peer, q: Peer)
    requires p.e.Mss() > 0 && RecvOk(Unbounded, p.e.r) && p.e.r.wnd < HALF
    ensures HostAct(Running(p), Running(q), HostRecv) == Running(Act(Unbounded, p, q, DoRecv))
  {
    WrapRecv(p.e.r);
  }

  lemma WrapInputMove(x: Peer, y: Peer, d: seq<Wire>)
    requires y.e.Mss() > 0 && d in x.out && RawOf(d) in Running(x).out
    requires InputPacket(WrapEndpoint(y.e), RawOf(d)) == (WrapEndpoint(Input(Unbounded, y.e, d)), 0)
    ensures HostAct(Running(y), Running(x), HostInput(RawOf(d))) == Running(Act(Unbounded, y, x, DoInput(d)))
  {
  }

  /** One move of the running host y does what the unbounded peer does. */
  lemma WrapAct(x: Peer, y: Peer, a: Action)
    requires Linked(x, y) && Allowed(x, y, a)
    ensures HostAct(Running(y), Running(x), RunningAction(a)) == Running(Act(Unbounded, y, x, a))
  {
    match a
    case DoSend(data) => WrapSendMove(y, x, data);
    case DoRecv => WrapRecvMove(y, x);
    case DoFlush => WrapFlushMove(y, x);
    case DoUpdate(now) => WrapUpdateMove(y, x, now);
    case DoTune(nodelay, interval, resend, nc) =>
    case DoInput(d) =>
      WrapInput(x, y, d);
      assert RawOf(d) in RawOut(x.out);
      WrapInputMove(x, y, d);
  }

  lemma ActKeepsLinked(x: Peer, y: Peer, a: Action)
    requires Linked(x, y)
    ensures Linked(x, Act(Unbounded, y, x, a))
  {
    ReceiverMoves(x, y, a);
    SenderMoves(y, x, a);
    ActKeepsSound(y, x, a);
  }

  // ---------------------------------------------------------------- whole runs

  datatype Hosts = Hosts(a: Host, b: Host)

  datatype HostMove = HostA(act: HostAction) | HostB(act: HostAction)

  function HostNext(sys: Hosts, m: HostMove): Hosts
    requires sys.a.e.Mss() > 0 && sys.b.e.Mss() > 0
  {
    match m
    case HostA(act) => sys.(a := HostAct(sys.a, sys.b, act))
    case HostB(act) => sys.(b := HostAct(sys.b, sys.a, act))
  }

  lemma HostActKeepsMtu(p: Host, q: Host, a: HostAction)
    requires p.e.Mss() > 0
    ensures HostAct(p, q, a).e.mtu == p.e.mtu
    ensures p.accepted <= HostAct(p, q, a).accepted
  {
  }

  function HostRun(sys: Hosts, moves: seq<HostMove>): (end: Hosts)
    requires sys.a.e.Mss() > 0 && sys.b.e.Mss() > 0
    ensures end.a.e.mtu == sys.a.e.mtu && end.b.e.mtu == sys.b.e.mtu
    ensures sys.a.accepted <= end.a.accepted && sys.b.accepted <= end.b.accepted
    decreases |moves|
  {
    if moves == [] then sys
    else
      HostActKeepsMtu(sys.a, sys.b, moves[0].act);
      HostActKeepsMtu(sys.b, sys.a, moves[0].act);
      HostRun(HostNext(sys, moves[0]), moves[1..])
  }

  function RunningAll(sys: System): Hosts {
    Hosts(Running(sys.a), Running(sys.b))
  }

  function RunningMove(m: Move): HostMove {
    match m
    case MoveA(act) => HostA(RunningAction(act))
    case MoveB(act) => HostB(RunningAction(act))
  }

  function RunningMoves(moves: seq<Move>): (r: seq<HostMove>)
    ensures |r| == |moves| && forall i :: 0 <= i < |moves| ==> r[i] == RunningMove(moves[i])
  {
    seq(|moves|, i requires 0 <= i < |moves| => RunningMove(moves[i]))
  }

  ghost predicate AllowedMove(sys: System, m: Move) {
    match m
    case MoveA(act) => Allowed(sys.b, sys.a, act)
    case MoveB(act) => Allowed(sys.a, sys.b, act)
  }

  /** Every delivery of the run is of a datagram the network has not yet forgotten. */
  ghost predicate Forgetful(sys: System, moves: seq<Move>)
    requires sys.a.e.Mss() > 0 && sys.b.e.Mss() > 0
    decreases |moves|
  {
    moves == [] || (
      && AllowedMove(sys, moves[0])
      && Next(Unbounded, sys, moves[0]).a.e.Mss() > 0
      && Next(Unbounded, sys, moves[0]).b.e.Mss() > 0
      && Forgetful(Next(Unbounded, sys, moves[0]), moves[1..]))
  }

  ghost predicate AllLinked(sys: System) {
    Linked(sys.a, sys.b) && Linked(sys.b, sys.a)
  }

  lemma NextLinked(sys: System, m: Move)
    requires AllLinked(sys)
    ensures AllLinked(Next(Unbounded, sys, m))
  {
    match m
    case MoveA(act) => ActKeepsLinked(sys.b, sys.a, act);
    case MoveB(act) => ActKeepsLinked(sys.a, sys.b, act);
  }

  lemma NewSystemLinked(conv: int, ca: Config, cb: Config)
    requires ConfigOk(ca) && ConfigOk(cb)
    ensures AllLinked(NewSystem(conv, ca, cb))
  {
    NewSystemGood(conv, ca, cb);
  }

  lemma WrapNext(sys: System, m: Move)
    requires AllLinked(sys) && AllowedMove(sys, m)
    ensures HostNext(RunningAll(sys), RunningMove(m)) == RunningAll(Next(Unbounded, sys, m))
  {
    match m
    case MoveA(act) => WrapAct(sys.b, sys.a, act);
    case MoveB(act) => WrapAct(sys.a, sys.b, act);
  }

  /** At every step of the run, the running hosts do what the unbounded peers do. */
  ghost predicate InLockstep(sys: System, moves: seq<Move>)
    requires sys.a.e.Mss() > 0 && sys.b.e.Mss() > 0
    decreases |moves|
  {
    moves == [] || (
      var sys' := Next(Unbounded, sys, moves[0]);
      && sys'.a.e.Mss() > 0 && sys'.b.e.Mss() > 0
      && HostNext(RunningAll(sys), RunningMove(moves[0])) == RunningAll(sys')
      && InLockstep(sys', moves[1..]))
  }

  lemma {:induction false} LinkedInLockstep(sys: System, moves: seq<Move>)
    requires AllLinked(sys) && Forgetful(sys, moves)
    ensures InLockstep(sys, moves)
    decreases |moves|
  {
    if moves != [] {
      WrapNext(sys, moves[0]);
      NextLinked(sys, moves[0]);
      LinkedInLockstep(Next(Unbounded, sys, moves[0]), moves[1..]);
    }
  }

  lemma {:induction false} LockstepRun(sys: System, moves: seq<Move>)
    requires sys.a.e.Mss() > 0 && sys.b.e.Mss() > 0 && InLockstep(sys, moves)
    ensures HostRun(RunningAll(sys), RunningMoves(moves)) == RunningAll(Run(Unbounded, sys, moves))
    decreases |moves|
  {
    if moves != [] {
      assert RunningMoves(moves)[1..] == RunningMoves(moves[1..]);
      LockstepRun(Next(Unbounded, sys, moves[0]), moves[1..]);
    }
  }

  /** A run over a forgetful network is the running system's run, step for step. */
  lemma WrapRun(sys: System, moves: seq<Move>)
    requires AllLinked(sys) && Forgetful(sys, moves)
    ensures HostRun(RunningAll(sys), RunningMoves(moves)) == RunningAll(Run(Unbounded, sys, moves))
  {
    LinkedInLockstep(sys, moves);
    LockstepRun(sys, moves);
  }

  function NewHost(conv: int, config: Config): Host {
    Host(Init(conv, config), {}, [], [])
  }

  function NewHosts(conv: int, ca: Config, cb: Config): Hosts {
    Hosts(NewHost(conv, ca), NewHost(conv, cb))
  }

  lemma NewHostsRunning(conv: int, ca: Config, cb: Config)
    ensures RunningAll(NewSystem(conv, ca, cb)) == NewHosts(conv, ca, cb)
  {
    assert WrapSegments([]) == [] && WrapAcks([]) == [];
  }

  /**
   Reliable ordered delivery on bytes and 32-bit numbers, over runs of any length: a network that may lose, duplicate,
   delay and reorder, but forgets a datagram before its numbers are nearly half a cycle old, never makes a reader see
   anything but a prefix of what was sent.
   */
  lemma WrappedDelivery(conv: int, ca: Config, cb: Config, moves: seq<Move>)
    requires ConfigOk(ca) && ConfigOk(cb)
    requires Forgetful(NewSystem(conv, ca, cb), moves)
    ensures var end := HostRun(NewHosts(conv, ca, cb), RunningMoves(moves));
            end.b.got <= end.a.accepted && end.a.got <= end.b.accepted
  {
    NewHostsRunning(conv, ca, cb);
    NewSystemLinked(conv, ca, cb);
    WrapRun(NewSystem(conv, ca, cb), moves);
    DeliveredIsPrefix(conv, ca, cb, moves);
  }

  // ---------------------------------------------------------------- runs too short to wrap

  /** Fewer fragments than a number may be old, in both directions. */
  predicate Short(sys: Hosts)
    requires sys.a.e.Mss() > 0 && sys.b.e.Mss() > 0
  {
    var most := HALF - Max(sys.a.e.r.wnd, sys.b.e.r.wnd);
    |Stream(sys.a.e.Mss(), sys.a.accepted)| < most && |Stream(sys.b.e.Mss(), sys.b.accepted)| < most
  }

  /** In a short run nothing is ever too old. */
  lemma ShortIsRecent(x: Peer, y: Peer, d: seq<Wire>)
    requires Linked(x, y) && d in x.out
    requires |Frags(x)| < MaxAge(y) && |Frags(y)| < MaxAge(y)
    ensures Deliverable(x, y, d)
  {
    forall w <- d
      ensures Recent(x, y, w)
    {
      assert Genuine(x, w) && Truthful(x.e.r, w);
    }
  }

  lemma StreamGrows(mss: int, a: seq<Bytes>, b: seq<Bytes>)
    requires mss > 0 && a <= b
    ensures |Stream(mss, a)| <= |Stream(mss, b)|
  {
    assert b == a + b[|a|..];
    StreamAppend(mss, a, b[|a|..]);
  }

  /** The action of the unbounded peer that a host's action stands for; None when the packet was never sent. */
  lemma LiftAction(x: Peer, y: Peer, h: HostAction) returns (a: Option<Action>)
    ensures a.Some? ==> RunningAction(a.value) == h && (a.value.DoInput? ==> a.value.d in x.out)
    ensures a.None? ==> h.HostInput? && h.packet !in Running(x).out
  {
    match h
    case HostSend(data) => a := Some(DoSend(data));
    case HostRecv => a := Some(DoRecv);
    case HostFlush => a := Some(DoFlush);
    case HostUpdate(now) => a := Some(DoUpdate(now));
    case HostTune(nodelay, interval, resend, nc) => a := Some(DoTune(nodelay, interval, resend, nc));
    case HostInput(packet) =>
      if packet in Running(x).out {
        var d :| d in x.out && RawOf(d) == packet;
        a := Some(DoInput(d));
      } else {
        a := None;
      }
  }

  lemma LiftAct(x: Peer, y: Peer, h: HostAction) returns (y': Peer)
    requires Linked(x, y) && |Frags(x)| < MaxAge(y) && |Frags(y)| < MaxAge(y)
    ensures Linked(x, y') && Running(y') == HostAct(Running(y), Running(x), h)
  {
    var a := LiftAction(x, y, h);
    if a.Some? {
      if a.value.DoInput? {
        ShortIsRecent(x, y, a.value.d);
      }
      WrapAct(x, y, a.value);
      ActKeepsLinked(x, y, a.value);
      y' := Act(Unbounded, y, x, a.value);
    } else {
      y' := y;
    }
  }

  lemma ShortFragments(sys: System)
    requires sys.a.e.Mss() > 0 && sys.b.e.Mss() > 0 && Short(RunningAll(sys))
    ensures |Frags(sys.a)| < MaxAge(sys.b) && |Frags(sys.b)| < MaxAge(sys.a)
    ensures |Frags(sys.a)| < MaxAge(sys.a) && |Frags(sys.b)| < MaxAge(sys.b)
  {
  }

  lemma LiftNext(sys: System, m: HostMove) returns (sys': System)
    requires AllLinked(sys) && Short(RunningAll(sys))
    ensures AllLinked(sys') && RunningAll(sys') == HostNext(RunningAll(sys), m)
  {
    ShortFragments(sys);
    match m
    case HostA(act) =>
      var p := LiftAct(sys.b, sys.a, act);
      sys' := System(p, sys.b);
    case HostB(act) =>
      var p := LiftAct(sys.a, sys.b, act);
      sys' := System(sys.a, p);
  }

  lemma HostActWindow(p: Host, q: Host, a: HostAction)
    requires p.e.Mss() > 0
    ensures HostAct(p, q, a).e.r.wnd == p.e.r.wnd
  {
    match a
    case HostRecv => RecvWindow(p.e.r);
    case HostInput(packet) => InputWindow(p.e, packet);
    case _ =>
  }

  lemma RecvWindow(r: Receiver)
    ensures Recv(Wrapping, r).0.wnd == r.wnd
  {
    PromoteShape(Wrapping, r.(queue := r.queue[MessageSpan(r.queue)..]));
  }

  lemma InputWindow(e: Endpoint, packet: Bytes)
    requires e.Mss() > 0
    ensures InputPacket(e, packet).0.r.wnd == e.r.wnd
  {
    AbsorbAllWindow(Wrapping, e, Parse(e.conv, packet).wires);
  }

  lemma {:induction false} HostRunWindow(sys: Hosts, moves: seq<HostMove>)
    requires sys.a.e.Mss() > 0 && sys.b.e.Mss() > 0
    ensures HostRun(sys, moves).a.e.r.wnd == sys.a.e.r.wnd && HostRun(sys, moves).b.e.r.wnd == sys.b.e.r.wnd
    decreases |moves|
  {
    if moves != [] {
      HostActKeepsMtu(sys.a, sys.b, moves[0].act);
      HostActKeepsMtu(sys.b, sys.a, moves[0].act);
      HostActWindow(sys.a, sys.b, moves[0].act);
      HostActWindow(sys.b, sys.a, moves[0].act);
      HostRunWindow(HostNext(sys, moves[0]), moves[1..]);
    }
  }

  /** A run that ends short began short. */
  lemma ShortBefore(sys: Hosts, moves: seq<HostMove>)
    requires sys.a.e.Mss() > 0 && sys.b.e.Mss() > 0 && Short(HostRun(sys, moves))
    ensures Short(sys)
  {
    var last := HostRun(sys, moves);
    HostRunWindow(sys, moves);
    StreamGrows(sys.a.e.Mss(), sys.a.accepted, last.a.accepted);
    StreamGrows(sys.b.e.Mss(), sys.b.accepted, last.b.accepted);
  }

  lemma {:induction false} LiftRun(sys: System, moves: seq<HostMove>) returns (end: System)
    requires AllLinked(sys) && Short(HostRun(RunningAll(sys), moves))
    ensures AllLinked(end) && RunningAll(end) == HostRun(RunningAll(sys), moves)
    decreases |moves|
  {
    if moves == [] {
      end := sys;
    } else {
      ShortBefore(RunningAll(sys), moves);
      var sys' := LiftNext(sys, moves[0]);
      end := LiftRun(sys', moves[1..]);
    }
  }

  /**
   Reliable ordered delivery of the code as it runs, with no ghost numbers in the statement: whatever the two hosts do
   and whichever of the sent datagrams arrive, in whatever order and however often, a run that has accepted fewer than
   about 2^31 fragments has delivered a prefix of what was sent, in each direction.
   */
  lemma HostDelivery(conv: int, ca: Config, cb: Config, moves: seq<HostMove>)
    requires ConfigOk(ca) && ConfigOk(cb)
    requires Short(HostRun(NewHosts(conv, ca, cb), moves))
    ensures var end := HostRun(NewHosts(conv, ca, cb), moves);
            end.b.got <= end.a.accepted && end.a.got <= end.b.accepted
  {
    NewHostsRunning(conv, ca, cb);
    NewSystemLinked(conv, ca, cb);
    var end := LiftRun(NewSystem(conv, ca, cb), moves);
  }

  lemma WrappedSns(buf: seq<Segment>, sn: int)
    requires sn in Sns(buf) && 0 <= sn < M32
    ensures sn in Sns(WrapSegments(buf))
  {
    var i :| 0 <= i < |buf| && buf[i].sn == sn;
    assert WrapSegments(buf)[i] in WrapSegments(buf);
  }

  lemma RunningHolds(x: Peer, y: Peer, sn: int)
    requires Dir(x, y) && x.e.s.nxt < HALF && 0 <= sn < x.e.s.nxt
    ensures sn < WrapReceiver(y.e.r).nxt || sn in Sns(WrapReceiver(y.e.r).buf) || sn in Sns(WrapSender(x.e.s).buf)
  {
    if sn in Sns(x.e.s.buf) {
      WrappedSns(x.e.s.buf, sn);
    } else if sn in Sns(y.e.r.buf) {
      WrappedSns(y.e.r.buf, sn);
    }
  }

  /** Each number x has given out waits in x's send buffer or has arrived at y. */
  predicate NothingMissing(x: Host, y: Host) {
    forall sn :: 0 <= sn < x.e.s.nxt ==> sn < y.e.r.nxt || sn in Sns(y.e.r.buf) || sn in Sns(x.e.s.buf)
  }

  lemma RunningMissesNothing(x: Peer, y: Peer)
    requires Dir(x, y) && x.e.s.nxt < HALF
    ensures NothingMissing(Running(x), Running(y))
  {
    forall sn | 0 <= sn < Running(x).e.s.nxt
      ensures sn < Running(y).e.r.nxt || sn in Sns(Running(y).e.r.buf) || sn in Sns(Running(x).e.s.buf)
    {
      RunningHolds(x, y, sn);
    }
  }

  /** No segment is lost by the hosts as they run. */
  lemma HostsLoseNothing(conv: int, ca: Config, cb: Config, moves: seq<HostMove>)
    requires ConfigOk(ca) && ConfigOk(cb)
    requires Short(HostRun(NewHosts(conv, ca, cb), moves))
    ensures var end := HostRun(NewHosts(conv, ca, cb), moves);
            NothingMissing(end.a, end.b) && NothingMissing(end.b, end.a)
  {
    NewHostsRunning(conv, ca, cb);
    NewSystemLinked(conv, ca, cb);
    var end := LiftRun(NewSystem(conv, ca, cb), moves);
    NumberedBelow(end);
    RunningMissesNothing(end.a, end.b);
    RunningMissesNothing(end.b, end.a);
  }

  lemma NumberedBelow(sys: System)
    requires AllLinked(sys) && Short(RunningAll(sys))
    ensures 0 <= sys.a.e.s.nxt < HALF && 0 <= sys.b.e.s.nxt < HALF
  {
    NumbersStreamed(sys.a);
    NumbersStreamed(sys.b);
  }

  /** No number is given out beyond the fragments accepted. */
  lemma NumbersStreamed(x: Peer)
    requires PeerOk(x) && SenderView(x)
    ensures 0 <= x.e.s.nxt <= |Stream(x.e.Mss(), x.accepted)|
  {
  }

  /** And at neither end can a full receive queue withhold the next message. */
  lemma HostsNeverDeadlock(conv: int, ca: Config, cb: Config, moves: seq<HostMove>)
    requires ConfigOk(ca) && ConfigOk(cb)
    requires Short(HostRun(NewHosts(conv, ca, cb), moves))
    ensures var end := HostRun(NewHosts(conv, ca, cb), moves);
            && NeverStuck(Wrapping, end.a.accepted, end.b.e.r, end.b.got)
            && NeverStuck(Wrapping, end.b.accepted, end.a.e.r, end.a.got)
  {
    NewHostsRunning(conv, ca, cb);
    NewSystemLinked(conv, ca, cb);
    var end := LiftRun(NewSystem(conv, ca, cb), moves);
    RunningNeverStuck(end.a, end.b);
    RunningNeverStuck(end.b, end.a);
  }

  lemma RunningNeverStuck(x: Peer, y: Peer)
    requires Linked(x, y)
    ensures NeverStuck(Wrapping, Running(x).accepted, Running(y).e.r, Running(y).got)
  {
    FullNeverStuck(x, y);
    WrapRecv(y.e.r);
  }

  /** A read returns the next unread message, and succeeds exactly when all its fragments have been promoted. */
  predicate ReadsNext(x: Host, y: Host)
    requires x.e.Mss() > 0
  {
    var m, k := Recv(Wrapping, y.e.r).1, |y.got|;
    && (m.Some? ==> k < |x.accepted| && m.value == x.accepted[k])
    && (y.e.r.queue != [] ==>
          k < |x.accepted| && (m.Some? <==> |y.e.r.queue| >= |Fragments(x.e.Mss(), x.accepted[k])|))
  }

  lemma HostsReadNext(conv: int, ca: Config, cb: Config, moves: seq<HostMove>)
    requires ConfigOk(ca) && ConfigOk(cb)
    requires Short(HostRun(NewHosts(conv, ca, cb), moves))
    ensures var end := HostRun(NewHosts(conv, ca, cb), moves);
            ReadsNext(end.a, end.b) && ReadsNext(end.b, end.a)
  {
    NewHostsRunning(conv, ca, cb);
    NewSystemLinked(conv, ca, cb);
    var end := LiftRun(NewSystem(conv, ca, cb), moves);
    RunningReadsNext(end.a, end.b);
    RunningReadsNext(end.b, end.a);
  }

  lemma RunningReadsNext(x: Peer, y: Peer)
    requires Linked(x, y)
    ensures ReadsNext(Running(x), Running(y))
  {
    PeerReadsNext(x, y);
    WrapRecv(y.e.r);
  }

  lemma PeerReadsNext(x: Peer, y: Peer)
    requires Dir(x, y)
    ensures var m, k := Recv(Unbounded, y.e.r).1, |y.got|;
            && (m.Some? ==> k < |x.accepted| && m.value == x.accepted[k])
            && (y.e.r.queue != [] ==>
                  k < |x.accepted| && (m.Some? <==> |y.e.r.queue| >= |Fragments(x.e.Mss(), x.accepted[k])|))
  {
    ReceiverReads(x, y);
    if y.e.r.queue != [] {
      RecvReadsIff(x, y);
    }
  }
}
