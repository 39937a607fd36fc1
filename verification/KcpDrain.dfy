/**
 Rounds in which nothing is lost, after any run that lost something. A round: the sender updates its clock and flushes,
 everything arrives, the receiver is read dry and flushes, everything arrives. From any state that any run of losses,
 repeats and reorderings has led to, such rounds deliver and acknowledge everything.
 */
module KcpDrain {
  import opened Bytes
  import opened Serial
  import opened KcpModel
  import opened KcpWire
  import opened KcpReceive
  import opened KcpSend
  import opened KcpStream
  import opened KcpSystem
  import opened KcpPacking
  import opened KcpRefine
  import opened KcpTiming

  // ---------------------------------------------------------------- the round

  /** Peer p inputs q's datagrams in order. */
  function DeliverAll(p: Peer, q: Peer, ds: seq<seq<Wire>>): (p': Peer)
    requires p.e.Mss() > 0
    ensures p'.e.Mss() == p.e.Mss()
    decreases |ds|
  {
    if ds == [] then p
    else
      ActKeepsMtu(Unbounded, p, q, DoInput(ds[0]));
      DeliverAll(Act(Unbounded, p, q, DoInput(ds[0])), q, ds[1..])
  }

  lemma RecvShortens(r: Receiver)
    requires PeekSize(r.queue) >= 0
    ensures var r' := Recv(Unbounded, r).0;
            |r'.queue| + |r'.buf| < |r.queue| + |r.buf|
  {
    PromoteShape(Unbounded, r.(queue := r.queue[MessageSpan(r.queue)..]));
  }

  /** Reading until `recv` returns nothing. */
  function ReadDry(p: Peer): (p': Peer)
    requires p.e.Mss() > 0
    ensures p'.e.Mss() == p.e.Mss() && PeekSize(p'.e.r.queue) < 0
    decreases |p.e.r.queue| + |p.e.r.buf|
  {
    if PeekSize(p.e.r.queue) < 0 then p
    else
      RecvShortens(p.e.r);
      ReadDry(Act(Unbounded, p, p, DoRecv))
  }

  function Updated(p: Peer, now: int): (p': Peer)
    requires p.e.Mss() > 0
    ensures p'.e.Mss() == p.e.Mss()
  {
    ActKeepsMtu(Unbounded, p, p, DoUpdate(now));
    Act(Unbounded, p, p, DoUpdate(now))
  }

  /** The datagrams that `update` sends. */
  function Sends(p: Peer, now: int): seq<seq<Wire>> {
    if Tick(p.e.c, now).1 then Datagrams(Unbounded, Ticked(p, now).e) else []
  }

  /** One round, with the times at which the two ends call `update`. */
  function Round(sys: System, ta: int, tb: int): System
    requires sys.a.e.Mss() > 0 && sys.b.e.Mss() > 0
  {
    var a1 := Updated(sys.a, ta);
    var b1 := ReadDry(DeliverAll(sys.b, a1, Sends(sys.a, ta)));
    var b2 := Updated(b1, tb);
    System(DeliverAll(a1, b2, Sends(b1, tb)), b2)
  }

  /**
   Times at which both ends flush, and late enough for the sender's oldest unacknowledged segment to be due again, or,
   when there is none and the peer's window is shut, for its window probe.
   */
  predicate Timely(a: Endpoint, b: Endpoint, ta: int, tb: int) {
    && Tick(a.c, ta).1 && Tick(b.c, tb).1
    && (a.s.buf != [] ==> Itimediff(U32(ta), a.s.buf[0].resendts) >= 0)
    && (a.s.buf == [] && a.c.rmtWnd == 0 && a.c.probeWait != 0 ==> Itimediff(U32(ta), a.c.tsProbe) >= 0)
  }

  /** A receive window that shows room beside any incomplete message when the header cuts it to 16 bits. */
  predicate Roomy(wnd: int) { WND_RCV - 1 <= wnd % 0x1_0000 }

  /** The state between rounds: anything may be in flight or lost, but the receiver has been read dry. */
  ghost predicate Ready(sys: System) {
    Linked(sys.a, sys.b) && Roomy(sys.b.e.r.wnd) && PeekSize(sys.b.e.r.queue) < 0
  }

  /** Something to send that may be sent now: a segment in flight, or a queued one the window lets in. */
  predicate Moving(e: Endpoint) {
    e.s.buf != [] || (e.s.queue != [] && 1 <= SendWindow(e.c))
  }

  function Backlog(e: Endpoint): nat { |e.s.queue| + |e.s.buf| }

  /** Rounds it may take a sender with nothing in flight to get its window open. */
  function Slack(e: Endpoint): nat {
    if Moving(e) || e.s.queue == [] then 0
    else if e.c.rmtWnd == 0 && e.c.probeWait == 0 then 2
    else 1
  }

  function Work(e: Endpoint): nat { Backlog(e) + Slack(e) }

  // ---------------------------------------------------------------- every stage keeps the invariant

  lemma LinkedSwap(x: Peer, y: Peer)
    requires Linked(x, y)
    ensures Linked(y, x)
  {
  }

  lemma UpdateLinked(x: Peer, y: Peer, now: int)
    requires Linked(x, y)
    ensures Linked(x, Updated(y, now))
  {
    ActKeepsLinked(x, y, DoUpdate(now));
    ActUpdate(Unbounded, y, x, now);
    ActUpdate(Unbounded, y, y, now);
  }

  lemma {:induction false} DeliverLinked(x: Peer, y: Peer, ds: seq<seq<Wire>>)
    requires Linked(x, y)
    ensures Linked(x, DeliverAll(y, x, ds))
    decreases |ds|
  {
    if ds != [] {
      ActKeepsLinked(x, y, DoInput(ds[0]));
      DeliverLinked(x, Act(Unbounded, y, x, DoInput(ds[0])), ds[1..]);
    }
  }

  lemma {:induction false} ReadDryLinked(x: Peer, y: Peer)
    requires Linked(x, y)
    ensures Linked(x, ReadDry(y))
    decreases |y.e.r.queue| + |y.e.r.buf|
  {
    if PeekSize(y.e.r.queue) >= 0 {
      RecvShortens(y.e.r);
      ActKeepsLinked(x, y, DoRecv);
      assert Act(Unbounded, y, x, DoRecv) == Act(Unbounded, y, y, DoRecv);
      ReadDryLinked(x, Act(Unbounded, y, y, DoRecv));
    }
  }

  lemma UpdatedIsFlushed(p: Peer, now: int)
    requires p.e.Mss() > 0 && Tick(p.e.c, now).1
    ensures Updated(p, now) == FlushPeer(Unbounded, Ticked(p, now))
    ensures forall d <- Sends(p, now) :: d in Updated(p, now).out
  {
    ActUpdate(Unbounded, p, p, now);
  }

  // ---------------------------------------------------------------- the sender's flush

  /** Numbering moves segments from the queue to the end of the buffer and loses none. */
  lemma {:induction false} AdmitMoves(s: Sender, st: Stamp, window: int, rto: int)
    ensures var s' := Admit(Unbounded, s, st, window, rto);
            && |s'.queue| + |s'.buf| == |s.queue| + |s.buf| && s.buf <= s'.buf && s'.una == s.una
            && (s.nxt < s.una + window && s.queue != [] ==>
                  |s'.buf| > |s.buf| && s'.buf[|s.buf|].xmit == 0 && s'.buf[|s.buf|].sn == s.nxt)
            && (s.nxt >= s.una + window ==> s' == s)
    decreases |s.queue|
  {
    if s.nxt < s.una + window && s.queue != [] {
      var s1 := s.(queue := s.queue[1..], nxt := s.nxt + 1,
                   buf := s.buf + [Numbered(s.queue[0], st, s.nxt, rto)]);
      AdmitMoves(s1, st, window, rto);
      var s' := Admit(Unbounded, s1, st, window, rto);
      assert s'.buf[|s.buf|] == s1.buf[|s.buf|];
      assert s.buf <= s1.buf <= s'.buf;
    }
  }

  lemma FlushCounts(e: Endpoint)
    ensures var s' := Flushed(Unbounded, e).s;
            && Backlog(Flushed(Unbounded, e)) == Backlog(e)
            && (e.s.una + SendWindow(e.c) <= e.s.nxt ==> |s'.buf| == |e.s.buf| && s'.queue == e.s.queue)
  {
    ProbesKeepWindow(e.c);
    AdmitMoves(e.s, StampOf(e), SendWindow(e.c), e.c.rto);
  }

  lemma AdmittedHead(e: Endpoint)
    requires SendOk(Unbounded, e.s, WIDEST) && Moving(e)
    requires e.s.buf != [] ==> Why(e.c, e.s.buf[0]) != Quiet
    ensures var s := Admitted(Unbounded, e);
            s.buf != [] && s.buf[0].sn == e.s.una && Why(e.c, s.buf[0]) != Quiet
  {
    ProbesKeepWindow(e.c);
    AdmitMoves(e.s, StampOf(e), SendWindow(e.c), e.c.rto);
  }

  /** A flush with its oldest segment due puts that segment on the wire. */
  lemma FlushSendsHead(e: Endpoint) returns (w: Wire)
    requires SendOk(Unbounded, e.s, WIDEST) && forall seg <- e.s.buf :: seg.cmd == CMD_PUSH
    requires Moving(e) && (e.s.buf != [] ==> Why(e.c, e.s.buf[0]) != Quiet)
    ensures Flushed(Unbounded, e).s.buf != [] && Flushed(Unbounded, e).s.buf[0].sn == e.s.una
    ensures w in OnWireAll(Unbounded, Emitted(Unbounded, e)) && w.cmd == CMD_PUSH && w.sn == e.s.una
  {
    var buf := Admitted(Unbounded, e).buf;
    AdmittedHead(e);
    AdmitCommands(Unbounded, e.s, StampOf(e), SendWindow(ProbeTimer(e.c)), e.c.rto);
    assert buf[0] in buf;
    var seg := Transmit(e.c, StampOf(e), buf[0]);
    HeadEmitted(e);
    w := SegmentGoesOut(e, seg);
  }

  lemma HeadEmitted(e: Endpoint)
    requires var buf := Admitted(Unbounded, e).buf; buf != [] && Why(e.c, buf[0]) != Quiet
    ensures Transmit(e.c, StampOf(e), Admitted(Unbounded, e).buf[0]) in Emitted(Unbounded, e)
  {
    var buf := Admitted(Unbounded, e).buf;
    assert Outgoing(e.c, StampOf(e), buf)[0] == Transmit(e.c, StampOf(e), buf[0]);
  }

  lemma SegmentGoesOut(e: Endpoint, seg: Segment) returns (w: Wire)
    requires seg in Emitted(Unbounded, e)
    ensures w == OnWire(Unbounded, seg) && w in OnWireAll(Unbounded, Emitted(Unbounded, e))
  {
    var i :| 0 <= i < |Emitted(Unbounded, e)| && Emitted(Unbounded, e)[i] == seg;
    w := OnWireAll(Unbounded, Emitted(Unbounded, e))[i];
  }

  lemma DatagramsHold(e: Endpoint)
    ensures Unpack(Datagrams(Unbounded, e)) == OnWireAll(Unbounded, Emitted(Unbounded, e))
    ensures Emitted(Unbounded, e) != [] ==> Datagrams(Unbounded, e) != []
  {
    PackKeepsAll(e.mtu, OnWireAll(Unbounded, Emitted(Unbounded, e)));
  }

  // ---------------------------------------------------------------- arrival

  /** The receiving half after a list of segments. */
  function ReceiveAll(r: Receiver, ws: seq<Wire>): Receiver
    decreases |ws|
  {
    if ws == [] then r else ReceiveAll(ReceiverAbsorb(Unbounded, r, ws[0]), ws[1..])
  }

  lemma {:induction false} ReceiveAllAppend(r: Receiver, a: seq<Wire>, b: seq<Wire>)
    ensures ReceiveAll(r, a + b) == ReceiveAll(ReceiveAll(r, a), b)
    decreases |a|
  {
    if a == [] {
      assert a + b == b;
    } else {
      assert (a + b)[1..] == a[1..] + b;
      ReceiveAllAppend(ReceiverAbsorb(Unbounded, r, a[0]), a[1..], b);
    }
  }

  lemma {:induction false} AbsorbAllReceives(e: Endpoint, ws: seq<Wire>)
    ensures AbsorbAll(Unbounded, e, ws).r == ReceiveAll(e.r, ws)
    decreases |ws|
  {
    if ws != [] {
      AbsorbAllReceives(Absorb(Unbounded, e, ws[0]), ws[1..]);
    }
  }

  lemma {:induction false} DeliverReceives(p: Peer, q: Peer, ds: seq<seq<Wire>>)
    requires p.e.Mss() > 0 && forall d <- ds :: d in q.out
    ensures DeliverAll(p, q, ds).e.r == ReceiveAll(p.e.r, Unpack(ds))
    decreases |ds|
  {
    if ds != [] {
      assert ds[0] in ds;
      var p1 := Act(Unbounded, p, q, DoInput(ds[0]));
      AbsorbAllReceives(p.e, ds[0]);
      DeliverReceives(p1, q, ds[1..]);
      ReceiveAllAppend(p.e.r, ds[0], Unpack(ds[1..]));
    }
  }

  /** The receiver is going to acknowledge a number. */
  ghost predicate Noted(r: Receiver, sn: int) {
    exists a <- r.acks :: a.0 == sn
  }

  lemma ReceiveGrows(r: Receiver, w: Wire)
    ensures var r' := ReceiverAbsorb(Unbounded, r, w);
            && r.nxt <= r'.nxt && r'.wnd == r.wnd && r.acks <= r'.acks
            && (w.cmd == CMD_PUSH && w.sn < r.nxt + r.wnd ==> (w.sn, w.ts) in r'.acks)
  {
    var noted := r.(acks := r.acks + [(w.sn, w.ts)]);
    PromoteShape(Unbounded, noted.(buf := Insert(Unbounded, noted.buf, Arrived(w))));
    assert (w.sn, w.ts) in noted.acks;
  }

  lemma {:induction false} ReceiveAllKeepsAcks(r: Receiver, ws: seq<Wire>)
    ensures r.acks <= ReceiveAll(r, ws).acks
    decreases |ws|
  {
    if ws != [] {
      ReceiveGrows(r, ws[0]);
      ReceiveAllKeepsAcks(ReceiverAbsorb(Unbounded, r, ws[0]), ws[1..]);
    }
  }

  /** A data segment below the window's end is noted, new or not, whatever else arrives. */
  lemma {:induction false} ReceiveNotes(r: Receiver, ws: seq<Wire>, w: Wire)
    requires w in ws && w.cmd == CMD_PUSH && w.sn < r.nxt + r.wnd
    ensures Noted(ReceiveAll(r, ws), w.sn)
    decreases |ws|
  {
    var r1 := ReceiverAbsorb(Unbounded, r, ws[0]);
    ReceiveGrows(r, ws[0]);
    if w == ws[0] {
      ReceiveAllKeepsAcks(r1, ws[1..]);
      assert (w.sn, w.ts) in ReceiveAll(r1, ws[1..]).acks;
    } else {
      ReceiveNotes(r1, ws[1..], w);
    }
  }

  lemma {:induction false} ReadDryKeeps(p: Peer)
    requires p.e.Mss() > 0
    ensures var p' := ReadDry(p);
            && p'.e.r.wnd == p.e.r.wnd && p'.e.r.acks == p.e.r.acks && p'.e.s == p.e.s && p'.e.c == p.e.c
            && p'.e.mtu == p.e.mtu && p'.out == p.out && p'.accepted == p.accepted
    decreases |p.e.r.queue| + |p.e.r.buf|
  {
    if PeekSize(p.e.r.queue) >= 0 {
      RecvShortens(p.e.r);
      PromoteShape(Unbounded, p.e.r.(queue := p.e.r.queue[MessageSpan(p.e.r.queue)..]));
      ReadDryKeeps(Act(Unbounded, p, p, DoRecv));
    }
  }

  // ---------------------------------------------------------------- what the receiver has

  lemma DryQueue(x: Peer, y: Peer)
    requires Dir(x, y) && PeekSize(y.e.r.queue) < 0
    ensures |y.e.r.queue| < WND_RCV - 1
  {
    if y.e.r.queue != [] {
      var m := NextMessage(x, y);
      assert MessageOk(x.e.Mss(), m);
    }
  }

  /** What the receiver is waiting for has not arrived, when its queue has room. */
  lemma NextMissing(r: Receiver)
    requires RecvOk(Unbounded, r) && |r.queue| < r.wnd
    ensures !Got(r, r.nxt)
  {
    forall i | 0 <= i < |r.buf|
      ensures r.buf[i].sn != r.nxt
    {
      BufferFits(Unbounded, r, i);
    }
  }

  lemma {:induction false} BehindHead(s: Sender, sn: int)
    requires SendOk(Unbounded, s, WIDEST) && sn in Sns(s.buf)
    ensures s.una <= sn < s.nxt
  {
    var i :| 0 <= i < |s.buf| && s.buf[i].sn == sn;
    assert 0 <= Ahead(Unbounded, s, s.buf[i].sn) < Span(Unbounded, s);
  }

  /** A receiver whose queue has room has everything below the sender's oldest unacknowledged number. */
  lemma NoGap(x: Peer, y: Peer)
    requires Dir(x, y) && |y.e.r.queue| < y.e.r.wnd
    ensures x.e.s.una <= y.e.r.nxt <= x.e.s.nxt
  {
    NextMissing(y.e.r);
    if y.e.r.nxt < x.e.s.una {
      assert Got(y.e.r, y.e.r.nxt) || y.e.r.nxt in Sns(x.e.s.buf);
      BehindHead(x.e.s, y.e.r.nxt);
    }
  }

  lemma ReadyHasRoom(sys: System)
    requires Ready(sys)
    ensures |sys.b.e.r.queue| < sys.b.e.r.wnd
  {
    DryQueue(sys.a, sys.b);
  }

  // ---------------------------------------------------------------- the acknowledgements

  /** Input only takes segments out of the send buffer. */
  ghost predicate Released(s: Sender, s': Sender) {
    && SendOk(Unbounded, s', WIDEST) && s'.nxt == s.nxt && s'.queue == s.queue
    && |s'.buf| <= |s.buf| && Sns(s'.buf) <= Sns(s.buf)
    && (|s'.buf| == |s.buf| ==> Sns(s'.buf) == Sns(s.buf))
  }

  lemma AbsorbShape(s: Sender, w: Wire)
    ensures var s' := SenderAbsorb(Unbounded, s, w);
            |s'.buf| <= |s.buf| && (|s'.buf| == |s.buf| ==> s'.buf == s.buf)
  {
    var s1 := Shrink(ParseUna(Unbounded, s, w.una));
    var k := RemoveAckedShape(Unbounded, s1.buf, w.sn);
  }

  lemma AbsorbReleases(s: Sender, w: Wire)
    requires SendOk(Unbounded, s, WIDEST)
    ensures var s' := SenderAbsorb(Unbounded, s, w);
            Released(s, s') && (w.cmd == CMD_ACK ==> w.sn !in Sns(s'.buf))
  {
    var s' := SenderAbsorb(Unbounded, s, w);
    AbsorbKeepsSendOk(Unbounded, s, WIDEST, w);
    AbsorbRemoves(s, w);
    AbsorbShape(s, w);
    if w.cmd == CMD_ACK {
      AckedGone(s, w);
    }
  }

  lemma AckedGone(s: Sender, w: Wire)
    requires SendOk(Unbounded, s, WIDEST) && w.cmd == CMD_ACK
    ensures w.sn !in Sns(SenderAbsorb(Unbounded, s, w).buf)
  {
    var s0 := ParseUna(Unbounded, s, w.una);
    var s1 := Shrink(s0);
    SuffixOrdered(Unbounded, s, WIDEST, Covered(Unbounded, s.buf, w.una));
    ShrinkKeeps(Unbounded, s0, WIDEST);
    if InFlight(Unbounded, s1, w.sn) {
      AckEarlyStop(Unbounded, s1, WIDEST, w.sn);
      WithoutMembers(s1.buf, w.sn);
    } else if w.sn in Sns(s1.buf) {
      BehindHead(s1, w.sn);
    }
  }

  /** Nothing that these segments acknowledge is left in the buffer. */
  ghost predicate Acked(ws: seq<Wire>, buf: seq<Segment>) {
    forall w <- ws :: w.cmd == CMD_ACK ==> w.sn !in Sns(buf)
  }

  lemma {:induction false} AbsorbAllReleases(e: Endpoint, ws: seq<Wire>)
    requires SendOk(Unbounded, e.s, WIDEST)
    ensures var s' := AbsorbAll(Unbounded, e, ws).s; Released(e.s, s') && Acked(ws, s'.buf)
    decreases |ws|
  {
    if ws != [] {
      AbsorbReleases(e.s, ws[0]);
      AbsorbAllReleases(Absorb(Unbounded, e, ws[0]), ws[1..]);
    }
  }

  lemma SameSns(a: seq<Segment>, b: seq<Segment>)
    requires SameContents(a, b)
    ensures Sns(a) == Sns(b)
  {
    forall seg <- a
      ensures seg.sn in Sns(b)
    {
      var i :| 0 <= i < |a| && a[i] == seg;
      assert b[i] in b;
    }
    forall seg <- b
      ensures seg.sn in Sns(a)
    {
      var i :| 0 <= i < |b| && b[i] == seg;
      assert a[i] in a;
    }
  }

  lemma InputReleases(e: Endpoint, d: seq<Wire>)
    requires e.Mss() > 0 && SendOk(Unbounded, e.s, WIDEST)
    ensures var s' := Input(Unbounded, e, d).s; Released(e.s, s') && Acked(d, s'.buf)
  {
    var s1, m := AbsorbAll(Unbounded, e, d).s, MarkAll(Unbounded, NoAck, d);
    AbsorbAllReleases(e, d);
    if m.Newest? {
      CountSkipsSame(Unbounded, s1.buf, m.sn, m.ts);
      SameContentsKeeps(Unbounded, s1, WIDEST, CountSkips(Unbounded, s1.buf, m.sn, m.ts));
      SameSns(s1.buf, CountSkips(Unbounded, s1.buf, m.sn, m.ts));
    }
  }

  lemma AckedOnward(ws: seq<Wire>, more: seq<Wire>, s: Sender, s': Sender)
    requires Acked(ws, s.buf) && Released(s, s') && Acked(more, s'.buf)
    ensures Acked(ws + more, s'.buf)
  {
  }

  lemma {:induction false} DeliverReleases(p: Peer, q: Peer, ds: seq<seq<Wire>>)
    requires p.e.Mss() > 0 && forall d <- ds :: d in q.out
    requires SendOk(Unbounded, p.e.s, WIDEST)
    ensures var s' := DeliverAll(p, q, ds).e.s; Released(p.e.s, s') && Acked(Unpack(ds), s'.buf)
    decreases |ds|
  {
    if ds != [] {
      var d, p1 := ds[0], Act(Unbounded, p, q, DoInput(ds[0]));
      assert d in ds;
      InputReleases(p.e, d);
      DeliverReleases(p1, q, ds[1..]);
      AckedOnward(d, Unpack(ds[1..]), p1.e.s, DeliverAll(p, q, ds).e.s);
    }
  }

  // ---------------------------------------------------------------- windows and probes

  /** What input leaves alone, and what it can only raise. */
  predicate Opened(c: Control, c': Control) {
    && c'.sndWnd == c.sndWnd && c'.nocwnd == c.nocwnd && c'.probeWait == c.probeWait
    && c'.updated == c.updated && c'.tsFlush == c.tsFlush
    && (c.cwnd >= 1 ==> c'.cwnd >= 1) && (c.askTell ==> c'.askTell)
  }

  lemma {:induction false} AbsorbAllOpens(e: Endpoint, ws: seq<Wire>)
    ensures var c' := AbsorbAll(Unbounded, e, ws).c;
            && Opened(e.c, c') && c'.rmtWnd == (if ws == [] then e.c.rmtWnd else ws[|ws| - 1].wnd)
            && ((exists w <- ws :: w.cmd == CMD_WASK) ==> c'.askTell)
    decreases |ws|
  {
    if ws != [] {
      AbsorbOpens(e.c, ws[0]);
      AbsorbAllOpens(Absorb(Unbounded, e, ws[0]), ws[1..]);
    }
  }

  lemma AbsorbOpens(c: Control, w: Wire)
    ensures Opened(c, ControlAbsorb(c, w)) && ControlAbsorb(c, w).rmtWnd == w.wnd
    ensures w.cmd == CMD_WASK ==> ControlAbsorb(c, w).askTell
  {
  }

  lemma InputOpens(e: Endpoint, d: seq<Wire>)
    requires e.Mss() > 0
    ensures var e' := Input(Unbounded, e, d);
            && Opened(e.c, e'.c) && e'.r.wnd == e.r.wnd
            && e'.c.rmtWnd == (if d == [] then e.c.rmtWnd else d[|d| - 1].wnd)
            && ((exists w <- d :: w.cmd == CMD_WASK) ==> e'.c.askTell)
  {
    AbsorbAllOpens(e, d);
    AbsorbAllWindow(Unbounded, e, d);
    GrowOpens(AbsorbAll(Unbounded, e, d).c, e.Mss());
  }

  lemma GrowOpens(c: Control, mss: int)
    requires mss > 0
    ensures Opened(c, Grow(c, mss)) && Grow(c, mss).rmtWnd == c.rmtWnd
  {
  }

  lemma {:induction false} DeliverOpens(p: Peer, q: Peer, ds: seq<seq<Wire>>)
    requires p.e.Mss() > 0 && forall d <- ds :: d in q.out && d != []
    ensures var p' := DeliverAll(p, q, ds);
            && Opened(p.e.c, p'.e.c) && p'.accepted == p.accepted && p'.e.r.wnd == p.e.r.wnd && p'.got == p.got
            && (ds == [] ==> p' == p)
            && ((exists w <- Unpack(ds) :: w.cmd == CMD_WASK) ==> p'.e.c.askTell)
    decreases |ds|
  {
    if ds != [] {
      var d := ds[0];
      assert d in ds;
      InputOpens(p.e, d);
      DeliverOpens(Act(Unbounded, p, q, DoInput(d)), q, ds[1..]);
    }
  }

  /** After datagrams that all advertise the same window, that is the window known. */
  lemma {:induction false} DeliverAdvertises(p: Peer, q: Peer, ds: seq<seq<Wire>>, wnd: int)
    requires p.e.Mss() > 0 && ds != [] && forall d <- ds :: d in q.out && d != []
    requires forall d, w | d in ds && w in d :: w.wnd == wnd
    ensures DeliverAll(p, q, ds).e.c.rmtWnd == wnd
    decreases |ds|
  {
    var d, p1 := ds[0], Act(Unbounded, p, q, DoInput(ds[0]));
    assert d in ds && d[|d| - 1] in d;
    InputOpens(p.e, d);
    assert p1.e.c.rmtWnd == wnd;
    if |ds| > 1 {
      DeliverAdvertises(p1, q, ds[1..], wnd);
    } else {
      assert ds[1..] == [];
    }
  }

  /**
   Everything a flush sends advertises its endpoint's free window, cut to 16 bits: a receive window of a multiple of
   65536 looks shut when its queue is empty.
   */
  lemma FlushAdvertises(n: Numbering, e: Endpoint)
    requires forall seg <- e.s.buf :: seg.cmd == CMD_PUSH
    ensures forall d, w | d in Datagrams(n, e) && w in d :: w.wnd == Unused(e.r) % 0x1_0000
  {
    EmittedExplained(n, e);
    forall d, w | d in Datagrams(n, e) && w in d
      ensures w.wnd == Unused(e.r) % 0x1_0000
    {
      var seg := InDatagram(n, e, d, w);
      assert Explained(n, e, seg);
    }
  }

  lemma RoomAdvertised(e: Endpoint)
    requires forall seg <- e.s.buf :: seg.cmd == CMD_PUSH
    requires |e.r.queue| < WND_RCV - 1 && 0 < e.r.wnd && Roomy(e.r.wnd)
    ensures var room := Unused(e.r) % 0x1_0000;
            1 <= room && forall d, w | d in Datagrams(Unbounded, e) && w in d :: w.wnd == room
  {
    FlushAdvertises(Unbounded, e);
  }

  /** What a flush does to the windows. */
  predicate Flushes(c: Control, c': Control) {
    && c'.cwnd >= 1 && c'.rmtWnd == c.rmtWnd && c'.sndWnd == c.sndWnd
    && (c.rmtWnd == 0 ==> c'.probeWait != 0)
  }

  lemma FlushOpens(e: Endpoint)
    requires ControlOk(e.c)
    ensures Flushes(e.c, Flushed(Unbounded, e).c)
  {
  }

  lemma FlushWaits(e: Endpoint)
    requires SendOk(Unbounded, e.s, WIDEST) && !Moving(e)
    ensures var s' := Flushed(Unbounded, e).s; s'.buf == [] && s'.queue == e.s.queue && s'.nxt == e.s.nxt
  {
    ProbesKeepWindow(e.c);
    AdmitMoves(e.s, StampOf(e), SendWindow(e.c), e.c.rto);
  }

  lemma UpdateFlushes(p: Peer, now: int)
    requires PeerOk(p) && SendOk(Unbounded, p.e.s, WIDEST) && Tick(p.e.c, now).1
    ensures var e' := Updated(p, now).e;
            && Flushes(p.e.c, e'.c) && Backlog(e') == Backlog(p.e)
            && (!Moving(p.e) ==> e'.s.buf == [] && e'.s.queue == p.e.s.queue && e'.s.nxt == p.e.s.nxt)
  {
    var e0 := Ticked(p, now).e;
    UpdatedIsFlushed(p, now);
    FlushOpens(e0);
    FlushCounts(e0);
    if !Moving(p.e) {
      FlushWaits(e0);
    }
  }

  /** A shut window is probed once the probe is due. */
  lemma ProbeGoesOut(e: Endpoint) returns (w: Wire)
    requires e.c.rmtWnd == 0 && e.c.probeWait != 0 && Itimediff(e.c.current, e.c.tsProbe) >= 0
    ensures w in OnWireAll(Unbounded, Emitted(Unbounded, e)) && w.cmd == CMD_WASK
  {
    var seg := ProbeSegment(StampOf(e), CMD_WASK);
    assert ProbeSegments(StampOf(e), ProbeTimer(e.c))[0] == seg;
    assert seg in Emitted(Unbounded, e);
    w := SegmentGoesOut(e, seg);
  }

  lemma AckGoesOut(e: Endpoint, sn: int) returns (w: Wire)
    requires Noted(e.r, sn)
    ensures w in OnWireAll(Unbounded, Emitted(Unbounded, e)) && w.cmd == CMD_ACK && w.sn == sn
  {
    var i :| 0 <= i < |e.r.acks| && e.r.acks[i].0 == sn;
    var seg := AckSegment(StampOf(e), e.r.acks[i]);
    assert AckSegments(StampOf(e), e.r.acks)[i] == seg;
    assert seg in Emitted(Unbounded, e);
    w := SegmentGoesOut(e, seg);
  }

  lemma TellGoesOut(e: Endpoint)
    requires e.c.askTell
    ensures Emitted(Unbounded, e) != []
  {
    assert ProbeSegments(StampOf(e), ProbeTimer(e.c)) != [];
  }

  // ---------------------------------------------------------------- one round

  /** First half: the sender flushes, all of it arrives and is read. */
  lemma RoundOut(a: Peer, b: Peer, ta: int) returns (a1: Peer, b1: Peer)
    requires Linked(a, b) && Tick(a.e.c, ta).1
    ensures a1 == Updated(a, ta) && b1 == ReadDry(DeliverAll(b, a1, Sends(a, ta)))
    ensures Linked(a1, b1)
    ensures PeekSize(b1.e.r.queue) < 0 && b1.e.r.wnd == b.e.r.wnd
    ensures a1.accepted == a.accepted && Flushes(a.e.c, a1.e.c) && Backlog(a1.e) == Backlog(a.e)
    ensures !Moving(a.e) ==> a1.e.s.buf == [] && a1.e.s.queue == a.e.s.queue && a1.e.s.nxt == a.e.s.nxt
    ensures b1.e.c.updated == b.e.c.updated && b1.e.c.tsFlush == b.e.c.tsFlush
  {
    a1 := Updated(a, ta);
    UpdatedIsFlushed(a, ta);
    UpdateFlushes(a, ta);
    var ds := Sends(a, ta);
    var b0 := DeliverAll(b, a1, ds);
    b1 := ReadDry(b0);
    LinkedSwap(a, b);
    UpdateLinked(b, a, ta);
    LinkedSwap(b, a1);
    DeliverLinked(a1, b, ds);
    ReadDryLinked(a1, b0);
    ReadDryKeeps(b0);
    SendsSound(a, ta);
    DeliverOpens(b, a1, ds);
  }

  lemma SendsSound(p: Peer, now: int)
    requires Sized(p.e)
    ensures forall d <- Sends(p, now) :: d != []
  {
    FlushPacks(Unbounded, Ticked(p, now).e);
  }

  /** In the first half the sender's oldest segment reaches the receiver, which notes it. */
  lemma HeadNoted(a: Peer, b: Peer, ta: int)
    requires Linked(a, b) && |b.e.r.queue| < b.e.r.wnd
    requires Tick(a.e.c, ta).1 && Moving(a.e)
    requires a.e.s.buf != [] ==> Itimediff(U32(ta), a.e.s.buf[0].resendts) >= 0
    ensures var a1 := Updated(a, ta);
            var b1 := ReadDry(DeliverAll(b, a1, Sends(a, ta)));
            a1.e.s.buf != [] && a1.e.s.buf[0].sn == a.e.s.una && Noted(b1.e.r, a.e.s.una)
  {
    var e0, a1, ds := Ticked(a, ta).e, Updated(a, ta), Sends(a, ta);
    UpdatedIsFlushed(a, ta);
    NoGap(a, b);
    var w := FlushSendsHead(e0);
    DatagramsHold(e0);
    DeliverReceives(b, a1, ds);
    ReceiveNotes(b.e.r, Unpack(ds), w);
    ReadDryKeeps(DeliverAll(b, a1, ds));
  }

  /** In the first half a due probe reaches the receiver, which is going to answer. */
  lemma ProbeHeard(a: Peer, b: Peer, ta: int)
    requires a.e.Mss() > 0 && b.e.Mss() > 0 && Sized(a.e) && Tick(a.e.c, ta).1
    requires a.e.c.rmtWnd == 0 && a.e.c.probeWait != 0 && Itimediff(U32(ta), a.e.c.tsProbe) >= 0
    ensures ReadDry(DeliverAll(b, Updated(a, ta), Sends(a, ta))).e.c.askTell
  {
    var e0, a1, ds := Ticked(a, ta).e, Updated(a, ta), Sends(a, ta);
    UpdatedIsFlushed(a, ta);
    var w := ProbeGoesOut(e0);
    DatagramsHold(e0);
    SendsSound(a, ta);
    DeliverOpens(b, a1, ds);
    ReadDryKeeps(DeliverAll(b, a1, ds));
  }

  /** Second half: the receiver flushes and all of it arrives. */
  lemma RoundBack(a1: Peer, b1: Peer, tb: int) returns (a2: Peer, b2: Peer)
    requires Linked(a1, b1) && Tick(b1.e.c, tb).1
    ensures b2 == Updated(b1, tb) && a2 == DeliverAll(a1, b2, Sends(b1, tb))
    ensures Linked(a2, b2)
    ensures b2.e.r.queue == b1.e.r.queue && b2.e.r.wnd == b1.e.r.wnd && b2.e.r.nxt == b1.e.r.nxt
    ensures a2.accepted == a1.accepted && Opened(a1.e.c, a2.e.c) && Released(a1.e.s, a2.e.s)
  {
    b2 := Updated(b1, tb);
    var ds := Sends(b1, tb);
    a2 := DeliverAll(a1, b2, ds);
    UpdatedIsFlushed(b1, tb);
    UpdateLinked(a1, b1, tb);
    LinkedSwap(a1, b2);
    DeliverLinked(b2, a1, ds);
    LinkedSwap(b2, a2);
    SendsSound(b1, tb);
    DeliverOpens(a1, b2, ds);
    DeliverReleases(a1, b2, ds);
  }

  /** In the second half what was noted is acknowledged, and is gone from the send buffer. */
  lemma NotedGone(a1: Peer, b1: Peer, tb: int, sn: int)
    requires a1.e.Mss() > 0 && b1.e.Mss() > 0 && Tick(b1.e.c, tb).1
    requires SendOk(Unbounded, a1.e.s, WIDEST) && Noted(b1.e.r, sn)
    ensures sn !in Sns(DeliverAll(a1, Updated(b1, tb), Sends(b1, tb)).e.s.buf)
  {
    UpdatedIsFlushed(b1, tb);
    var w := AckGoesOut(Ticked(b1, tb).e, sn);
    DatagramsHold(Ticked(b1, tb).e);
    DeliverReleases(a1, Updated(b1, tb), Sends(b1, tb));
  }

  /** And the sender learns of room at the receiver, if the receiver has anything to say. */
  lemma RoomLearnt(a1: Peer, b1: Peer, tb: int)
    requires Linked(a1, b1) && PeekSize(b1.e.r.queue) < 0 && Roomy(b1.e.r.wnd) && Tick(b1.e.c, tb).1
    ensures var rmt := DeliverAll(a1, Updated(b1, tb), Sends(b1, tb)).e.c.rmtWnd;
            && (rmt == a1.e.c.rmtWnd || rmt >= 1)
            && ((exists sn :: Noted(b1.e.r, sn)) || b1.e.c.askTell ==> rmt >= 1)
  {
    var e0, ds := Ticked(b1, tb).e, Sends(b1, tb);
    UpdatedIsFlushed(b1, tb);
    DryQueue(a1, b1);
    RoomAdvertised(e0);
    DatagramsHold(e0);
    SendsSound(b1, tb);
    if ds != [] {
      DeliverAdvertises(a1, Updated(b1, tb), ds, Unused(e0.r) % 0x1_0000);
    }
    if exists sn :: Noted(b1.e.r, sn) {
      var sn :| Noted(b1.e.r, sn);
      var w := AckGoesOut(e0, sn);
    }
    if b1.e.c.askTell {
      TellGoesOut(e0);
    }
  }

  lemma ReleasedFewer(s: Sender, s': Sender, sn: int)
    requires Released(s, s') && sn in Sns(s.buf) && sn !in Sns(s'.buf)
    ensures |s'.buf| < |s.buf|
  {
  }

  /**
   A round in which the oldest segment is due, or the window lets a new one go, shortens what is queued and in flight,
   whatever was lost before and however the windows stand. All that it takes is a receiver with room in its queue.
   */
  lemma RoundShortens(sys: System, ta: int, tb: int)
    requires Linked(sys.a, sys.b) && |sys.b.e.r.queue| < sys.b.e.r.wnd
    requires Moving(sys.a.e) && Timely(sys.a.e, sys.b.e, ta, tb)
    ensures Backlog(Round(sys, ta, tb).a.e) < Backlog(sys.a.e)
  {
    var a1, b1 := RoundOut(sys.a, sys.b, ta);
    var a2, b2 := RoundBack(a1, b1, tb);
    HeadNoted(sys.a, sys.b, ta);
    NotedGone(a1, b1, tb, sys.a.e.s.una);
    assert a1.e.s.buf[0] in a1.e.s.buf;
    ReleasedFewer(a1.e.s, a2.e.s, sys.a.e.s.una);
  }

  lemma RoundReady(sys: System, ta: int, tb: int)
    requires Ready(sys) && Tick(sys.a.e.c, ta).1 && Tick(sys.b.e.c, tb).1
    ensures Ready(Round(sys, ta, tb)) && Round(sys, ta, tb).a.accepted == sys.a.accepted
  {
    var a1, b1 := RoundOut(sys.a, sys.b, ta);
    var a2, b2 := RoundBack(a1, b1, tb);
  }

  /** What one round does to the sender's windows, depending on what the receiver has to say half way. */
  lemma RoundControl(sys: System, ta: int, tb: int) returns (b1: Peer)
    requires Ready(sys) && Tick(sys.a.e.c, ta).1 && Tick(sys.b.e.c, tb).1
    ensures b1 == ReadDry(DeliverAll(sys.b, Updated(sys.a, ta), Sends(sys.a, ta)))
    ensures var c, c' := sys.a.e.c, Round(sys, ta, tb).a.e.c;
            && 0 <= c.rmtWnd && 1 <= c'.sndWnd && c'.cwnd >= 1 && (c'.rmtWnd == c.rmtWnd || c'.rmtWnd >= 1)
            && (c.rmtWnd == 0 ==> c'.probeWait != 0)
            && ((exists sn :: Noted(b1.e.r, sn)) || b1.e.c.askTell ==> c'.rmtWnd >= 1)
  {
    var a1, b0 := RoundOut(sys.a, sys.b, ta);
    b1 := b0;
    var a2, b2 := RoundBack(a1, b1, tb);
    RoomLearnt(a1, b1, tb);
  }

  /** The sender's windows after a round, when it may have been answered. */
  predicate Opens(c: Control, moving: bool, c': Control) {
    && (moving || c.probeWait != 0 || c.rmtWnd >= 1 ==> 1 <= SendWindow(c'))
    && (1 <= SendWindow(c') || (c'.rmtWnd == 0 && c'.probeWait != 0))
  }

  lemma WindowsOpen(c: Control, moving: bool, c': Control)
    requires 0 <= c.rmtWnd && 1 <= c'.sndWnd && c'.cwnd >= 1 && (c'.rmtWnd == c.rmtWnd || c'.rmtWnd >= 1)
    requires c.rmtWnd == 0 ==> c'.probeWait != 0
    requires moving || (c.rmtWnd == 0 && c.probeWait != 0) ==> c'.rmtWnd >= 1
    ensures Opens(c, moving, c')
  {
  }

  /** Once a round has got an answer, the sender may send; and it is never kept waiting without a probe under way. */
  lemma RoundOpens(sys: System, ta: int, tb: int)
    requires Ready(sys) && Timely(sys.a.e, sys.b.e, ta, tb)
    ensures Opens(sys.a.e.c, Moving(sys.a.e), Round(sys, ta, tb).a.e.c)
  {
    var b1 := RoundControl(sys, ta, tb);
    if Moving(sys.a.e) {
      ReadyHasRoom(sys);
      HeadNoted(sys.a, sys.b, ta);
      assert Noted(b1.e.r, sys.a.e.s.una);
    } else if sys.a.e.c.rmtWnd == 0 && sys.a.e.c.probeWait != 0 {
      ProbeHeard(sys.a, sys.b, ta);
    }
    WindowsOpen(sys.a.e.c, Moving(sys.a.e), Round(sys, ta, tb).a.e.c);
  }

  /** A round in which nothing may be sent keeps what there is to send. */
  lemma RoundWaits(sys: System, ta: int, tb: int)
    requires Linked(sys.a, sys.b) && Tick(sys.a.e.c, ta).1 && Tick(sys.b.e.c, tb).1 && !Moving(sys.a.e)
    ensures var s, s' := sys.a.e.s, Round(sys, ta, tb).a.e.s; s'.buf == [] && s'.queue == s.queue && s'.nxt == s.nxt
  {
    var a1, b1 := RoundOut(sys.a, sys.b, ta);
    var a2, b2 := RoundBack(a1, b1, tb);
  }

  lemma WorkLess(e: Endpoint, e': Endpoint)
    requires 0 <= e.c.rmtWnd && Opens(e.c, Moving(e), e'.c)
    requires Moving(e) ==> Backlog(e') < Backlog(e)
    requires !Moving(e) ==> e'.s.buf == [] && e'.s.queue == e.s.queue
    ensures Work(e') < Work(e) || Work(e') == Work(e) == 0
  {
  }

  /** Every timely round gets nearer the end, or is past it. */
  lemma RoundWorks(sys: System, ta: int, tb: int)
    requires Ready(sys) && Timely(sys.a.e, sys.b.e, ta, tb)
    ensures var w, w' := Work(sys.a.e), Work(Round(sys, ta, tb).a.e); w' < w || w' == w == 0
  {
    RoundOpens(sys, ta, tb);
    if Moving(sys.a.e) {
      ReadyHasRoom(sys);
      RoundShortens(sys, ta, tb);
    } else {
      RoundWaits(sys, ta, tb);
    }
    WorkLess(sys.a.e, Round(sys, ta, tb).a.e);
  }

  // ---------------------------------------------------------------- all rounds

  /** Everything accepted has been delivered, and all of it is acknowledged. */
  predicate Drained(sys: System, msgs: seq<Bytes>) {
    && sys.a.e.s.queue == [] && sys.a.e.s.buf == [] && sys.a.e.s.una == sys.a.e.s.nxt
    && sys.a.accepted == msgs && sys.b.got == msgs
  }

  /** When nothing is queued or unacknowledged and the reader has read dry, every message has been delivered. */
  lemma DrainedDelivered(x: Peer, y: Peer)
    requires Dir(x, y) && x.e.s.queue == [] && x.e.s.nxt == y.e.r.nxt && PeekSize(y.e.r.queue) < 0
    ensures y.got == x.accepted
  {
    var mss, F := x.e.Mss(), Frags(x);
    if y.got != x.accepted {
      var k := |y.got|;
      assert y.got == x.accepted[..k];
      StreamAt(mss, x.accepted, k);
      assert |F| == y.e.r.nxt;
      assert |y.e.r.queue| >= |Fragments(mss, x.accepted[k])|;
      var m := NextMessage(x, y);
      assert false;
    }
  }

  lemma NoWorkDrained(sys: System)
    requires Ready(sys) && Work(sys.a.e) == 0
    ensures Drained(sys, sys.a.accepted)
  {
    ReadyHasRoom(sys);
    NoGap(sys.a, sys.b);
    DrainedDelivered(sys.a, sys.b);
  }

  /** There is always a next timely round, whatever the clocks and timers show. */
  lemma TimelyExists(a: Endpoint, b: Endpoint) returns (ta: int, tb: int)
    ensures Timely(a, b, ta, tb)
  {
    ta := DueTime(a.c, if a.s.buf != [] then a.s.buf[0].resendts else a.c.tsProbe);
    tb := DueTime(b.c, 0);
  }

  /** A time at which `update` flushes and a timer has run out. */
  lemma DueTime(c: Control, due: int) returns (now: int)
    ensures Tick(c, now).1 && Itimediff(U32(now), due) >= 0
  {
    now := due;
    UpdateFlushesIff(c, due);
    LaterBy(due, 0);
    if !Tick(c, due).1 {
      now := due + 20000;
      UpdateFlushesIff(c, now);
      LaterBy(due, 20000);
      FarFromBoth(c.tsFlush, due);
    }
  }

  lemma LaterBy(t: int, k: int)
    requires 0 <= k < HALF
    ensures Itimediff(U32(t + k), t) == k
  {
    ItimediffExact(t + k, t);
    DiffNorm(Wrapping, t + k, t);
  }

  lemma FarFromBoth(flush: int, due: int)
    requires -10000 <= Itimediff(U32(due), flush) < 0
    ensures Itimediff(U32(due + 20000), flush) >= 0
  {
    DiffNorm(Wrapping, due, flush);
    DiffPlus(Wrapping, due, flush, 20000);
    DiffNorm(Wrapping, due + 20000, flush);
  }

  predicate NextRound(sys: System, times: (int, int), next: System) {
    && sys.a.e.Mss() > 0 && sys.b.e.Mss() > 0
    && Timely(sys.a.e, sys.b.e, times.0, times.1)
    && next == Round(sys, times.0, times.1)
  }

  lemma OneRound(sys: System, at: (int, int), next: System)
    requires Ready(sys) && NextRound(sys, at, next)
    ensures Ready(next) && next.a.accepted == sys.a.accepted
    ensures Work(next.a.e) < Work(sys.a.e) || Work(next.a.e) == Work(sys.a.e) == 0
  {
    RoundReady(sys, at.0, at.1);
    RoundWorks(sys, at.0, at.1);
  }

  // ---------------------------------------------------------------- windows the header cannot show

  /**
   A sender that takes the window to be shut, with nothing in flight, at a receiver that has read all it can and shows
   no room, because it has none or because its room is a multiple of 65536.
   */
  ghost predicate Shut(sys: System) {
    Linked(sys.a, sys.b) && ShutEnds(sys.a.e, sys.b.e)
  }

  predicate LooksShut(r: Receiver) {
    PeekSize(r.queue) < 0 && Unused(r) % 0x1_0000 == 0
  }

  predicate ShutEnds(a: Endpoint, b: Endpoint) {
    a.s.buf == [] && a.c.rmtWnd == 0 && LooksShut(b.r) && b.r.nxt == a.s.nxt
  }

  lemma {:induction false} ReceiveAllCounts(r: Receiver, ws: seq<Wire>)
    ensures var r' := ReceiveAll(r, ws); r.queue <= r'.queue && |r'.queue| - |r.queue| == r'.nxt - r.nxt
    decreases |ws|
  {
    if ws != [] {
      var noted := r.(acks := r.acks + [(ws[0].sn, ws[0].ts)]);
      PromoteShape(Unbounded, noted.(buf := Insert(Unbounded, noted.buf, Arrived(ws[0]))));
      ReceiveAllCounts(ReceiverAbsorb(Unbounded, r, ws[0]), ws[1..]);
    }
  }

  lemma LinkedOut(a: Peer, b: Peer, ta: int)
    requires Linked(a, b)
    ensures Linked(Updated(a, ta), DeliverAll(b, Updated(a, ta), Sends(a, ta)))
  {
    LinkedSwap(a, b);
    UpdateLinked(b, a, ta);
    LinkedSwap(b, Updated(a, ta));
    DeliverLinked(Updated(a, ta), b, Sends(a, ta));
  }

  lemma AtMostSent(x: Peer, y: Peer)
    requires Linked(x, y)
    ensures y.e.r.nxt <= x.e.s.nxt
  {
  }

  lemma NothingAdmitted(p: Peer, now: int)
    requires p.e.Mss() > 0 && SendOk(Unbounded, p.e.s, WIDEST) && Tick(p.e.c, now).1 && !Moving(p.e)
    ensures Updated(p, now).e.s.nxt == p.e.s.nxt
  {
    UpdatedIsFlushed(p, now);
    FlushWaits(Ticked(p, now).e);
  }

  lemma NothingQueued(b: Peer, q: Peer, ds: seq<seq<Wire>>)
    requires b.e.Mss() > 0 && PeekSize(b.e.r.queue) < 0 && forall d <- ds :: d in q.out
    requires DeliverAll(b, q, ds).e.r.nxt <= b.e.r.nxt
    ensures var b' := DeliverAll(b, q, ds);
            ReadDry(b') == b' && b'.e.r.queue == b.e.r.queue && b'.e.r.nxt == b.e.r.nxt
  {
    DeliverReceives(b, q, ds);
    ReceiveAllCounts(b.e.r, Unpack(ds));
  }

  lemma StandsStill(e: Endpoint)
    requires e.s.buf == [] && e.c.rmtWnd == 0
    ensures !Moving(e)
  {
  }

  /** Nothing new reaches the receiver. */
  lemma ShutOut(a: Peer, b: Peer, ta: int)
    requires Linked(a, b) && ShutEnds(a.e, b.e) && Tick(a.e.c, ta).1
    ensures var r := ReadDry(DeliverAll(b, Updated(a, ta), Sends(a, ta))).e.r;
            r.queue == b.e.r.queue && r.nxt == b.e.r.nxt
  {
    StandsStill(a.e);
    NothingAdmitted(a, ta);
    LinkedOut(a, b, ta);
    AtMostSent(Updated(a, ta), DeliverAll(b, Updated(a, ta), Sends(a, ta)));
    UpdatedIsFlushed(a, ta);
    NothingQueued(b, Updated(a, ta), Sends(a, ta));
  }

  lemma LinkedSends(x: Peer, y: Peer)
    requires Linked(x, y)
    ensures x.e.Mss() > 0 && y.e.Mss() > 0 && Sized(y.e) && forall seg <- y.e.s.buf :: seg.cmd == CMD_PUSH
  {
  }

  /** What the sender takes the window to be after the receiver's flush has arrived. */
  lemma Told(a1: Peer, b1: Peer, tb: int)
    requires a1.e.Mss() > 0 && b1.e.Mss() > 0 && Sized(b1.e) && forall seg <- b1.e.s.buf :: seg.cmd == CMD_PUSH
    requires Tick(b1.e.c, tb).1
    ensures var rmt := DeliverAll(a1, Updated(b1, tb), Sends(b1, tb)).e.c.rmtWnd;
            rmt == if Sends(b1, tb) == [] then a1.e.c.rmtWnd else Unused(b1.e.r) % 0x1_0000
  {
    UpdatedIsFlushed(b1, tb);
    FlushAdvertises(Unbounded, Ticked(b1, tb).e);
    SendsSound(b1, tb);
    if Sends(b1, tb) != [] {
      DeliverAdvertises(a1, Updated(b1, tb), Sends(b1, tb), Unused(b1.e.r) % 0x1_0000);
    }
  }

  lemma LooksTheSame(r: Receiver, r': Receiver)
    requires LooksShut(r) && r'.queue == r.queue && r'.wnd == r.wnd
    ensures LooksShut(r')
  {
  }

  lemma ShutFirst(a: Peer, b: Peer, ta: int) returns (a1: Peer, b1: Peer)
    requires Linked(a, b) && ShutEnds(a.e, b.e) && Tick(a.e.c, ta).1
    ensures a1 == Updated(a, ta) && b1 == ReadDry(DeliverAll(b, a1, Sends(a, ta)))
    ensures Linked(a1, b1) && a1.e.c.rmtWnd == 0
    ensures b1.e.r.queue == b.e.r.queue && b1.e.r.wnd == b.e.r.wnd && b1.e.r.nxt == b.e.r.nxt
    ensures b1.e.c.updated == b.e.c.updated && b1.e.c.tsFlush == b.e.c.tsFlush
  {
    a1, b1 := RoundOut(a, b, ta);
    ShutOut(a, b, ta);
  }

  /** All the receiver has to say is that its window is shut. */
  lemma ShutSecond(a1: Peer, b1: Peer, tb: int)
    requires a1.e.Mss() > 0 && b1.e.Mss() > 0 && Sized(b1.e) && forall seg <- b1.e.s.buf :: seg.cmd == CMD_PUSH
    requires Tick(b1.e.c, tb).1 && a1.e.c.rmtWnd == 0 && LooksShut(b1.e.r)
    ensures var b2 := Updated(b1, tb);
            && DeliverAll(a1, b2, Sends(b1, tb)).e.c.rmtWnd == 0
            && b2.e.r.queue == b1.e.r.queue && b2.e.r.wnd == b1.e.r.wnd && b2.e.r.nxt == b1.e.r.nxt
            && LooksShut(b2.e.r)
  {
    Told(a1, b1, tb);
    UpdatedIsFlushed(b1, tb);
    LooksTheSame(b1.e.r, Updated(b1, tb).e.r);
  }

  lemma RoundLinked(sys: System, ta: int, tb: int)
    requires Linked(sys.a, sys.b) && Tick(sys.a.e.c, ta).1 && Tick(sys.b.e.c, tb).1
    ensures var sys' := Round(sys, ta, tb);
            && Linked(sys'.a, sys'.b) && PeekSize(sys'.b.e.r.queue) < 0 && sys'.b.e.r.wnd == sys.b.e.r.wnd
            && sys'.a.accepted == sys.a.accepted && sys'.a.e.c.sndWnd == sys.a.e.c.sndWnd
  {
    var a1, b1 := RoundOut(sys.a, sys.b, ta);
    var a2, b2 := RoundBack(a1, b1, tb);
  }

  lemma RoundEndsShut(sys: System, ta: int, tb: int)
    requires Linked(sys.a, sys.b) && ShutEnds(sys.a.e, sys.b.e) && Tick(sys.a.e.c, ta).1 && Tick(sys.b.e.c, tb).1
    ensures var r, r' := sys.b.e.r, Round(sys, ta, tb).b.e.r;
            r'.queue == r.queue && r'.wnd == r.wnd && r'.nxt == r.nxt && LooksShut(r')
    ensures Round(sys, ta, tb).a.e.c.rmtWnd == 0
  {
    var a1, b1 := ShutFirst(sys.a, sys.b, ta);
    LooksTheSame(sys.b.e.r, b1.e.r);
    LinkedSends(a1, b1);
    ShutSecond(a1, b1, tb);
  }

  lemma RoundKeepsQueue(sys: System, ta: int, tb: int)
    requires Linked(sys.a, sys.b) && ShutEnds(sys.a.e, sys.b.e) && Tick(sys.a.e.c, ta).1 && Tick(sys.b.e.c, tb).1
    ensures var s, s' := sys.a.e.s, Round(sys, ta, tb).a.e.s; s'.buf == [] && s'.queue == s.queue && s'.nxt == s.nxt
  {
    StandsStill(sys.a.e);
    RoundWaits(sys, ta, tb);
  }

  lemma RoundStaysShut(sys: System, ta: int, tb: int)
    requires Shut(sys) && Tick(sys.a.e.c, ta).1 && Tick(sys.b.e.c, tb).1
    ensures Shut(Round(sys, ta, tb)) && Round(sys, ta, tb).a.e.s.queue == sys.a.e.s.queue
    ensures Round(sys, ta, tb).a.accepted == sys.a.accepted
  {
    RoundLinked(sys, ta, tb);
    RoundEndsShut(sys, ta, tb);
    RoundKeepsQueue(sys, ta, tb);
  }

  /** After a round with something due, the sender takes the window to be what the header shows of it. */
  lemma RoundTells(sys: System, ta: int, tb: int)
    requires Linked(sys.a, sys.b) && |sys.b.e.r.queue| < sys.b.e.r.wnd
    requires Moving(sys.a.e) && Timely(sys.a.e, sys.b.e, ta, tb)
    ensures Round(sys, ta, tb).a.e.c.rmtWnd == Unused(Round(sys, ta, tb).b.e.r) % 0x1_0000
  {
    var a1, b1 := NotedOut(sys.a, sys.b, ta);
    var a2, b2 := BackTells(a1, b1, tb, sys.a.e.s.una);
  }

  lemma NotedOut(a: Peer, b: Peer, ta: int) returns (a1: Peer, b1: Peer)
    requires Linked(a, b) && |b.e.r.queue| < b.e.r.wnd
    requires Moving(a.e) && Tick(a.e.c, ta).1
    requires a.e.s.buf != [] ==> Itimediff(U32(ta), a.e.s.buf[0].resendts) >= 0
    ensures a1 == Updated(a, ta) && b1 == ReadDry(DeliverAll(b, a1, Sends(a, ta)))
    ensures Linked(a1, b1) && Noted(b1.e.r, a.e.s.una)
    ensures b1.e.c.updated == b.e.c.updated && b1.e.c.tsFlush == b.e.c.tsFlush
  {
    a1, b1 := RoundOut(a, b, ta);
    HeadNoted(a, b, ta);
  }

  lemma BackTells(a1: Peer, b1: Peer, tb: int, sn: int) returns (a2: Peer, b2: Peer)
    requires Linked(a1, b1) && Tick(b1.e.c, tb).1 && Noted(b1.e.r, sn)
    ensures b2 == Updated(b1, tb) && a2 == DeliverAll(a1, b2, Sends(b1, tb))
    ensures a2.e.c.rmtWnd == Unused(b2.e.r) % 0x1_0000
  {
    b2 := Updated(b1, tb);
    a2 := DeliverAll(a1, b2, Sends(b1, tb));
    LinkedSends(a1, b1);
    Answers(b1, tb, sn);
    Told(a1, b1, tb);
  }

  lemma Answers(p: Peer, now: int, sn: int)
    requires p.e.Mss() > 0 && Tick(p.e.c, now).1 && Noted(p.e.r, sn)
    ensures Sends(p, now) != [] && Unused(Updated(p, now).e.r) == Unused(p.e.r)
  {
    UpdatedIsFlushed(p, now);
    var w := AckGoesOut(Ticked(p, now).e, sn);
    DatagramsHold(Ticked(p, now).e);
  }

  // ---------------------------------------------------------------- a run after which nothing drains

  /** How many fragments are sent before the window looks shut. */
  function Last(wnd: int): int { Max(1, wnd % 0x1_0000) }

  /**
   A sender that sends one segment at a time, with nothing in flight, and with two messages that are one fragment longer
   than what the receiver's window shows.
   */
  ghost predicate Narrow(sys: System, m: Bytes) {
    && Linked(sys.a, sys.b) && NarrowEnds(sys.a.e, sys.b.e) && sys.a.accepted == [m, m]
    && |Fragments(sys.a.e.Mss(), m)| == sys.b.e.r.wnd % 0x1_0000 + 1
  }

  predicate NarrowEnds(a: Endpoint, b: Endpoint) {
    && a.s.buf == [] && a.c.sndWnd == 1 && PeekSize(b.r.queue) < 0
    && a.s.nxt <= Last(b.r.wnd)
  }

  /** And when as much has been sent as the window can show room for, the sender has been told that it is shut. */
  ghost predicate Narrowing(sys: System, m: Bytes) {
    Narrow(sys, m) && (sys.a.e.s.nxt == Last(sys.b.e.r.wnd) ==> sys.a.e.c.rmtWnd == 0)
  }

  /** Two messages of the same length. */
  lemma TwoMessages(mss: int, m: Bytes)
    requires mss > 0
    ensures |Stream(mss, [m, m])| == 2 * |Fragments(mss, m)|
    ensures forall got: seq<Bytes> | got <= [m, m] :: |Stream(mss, got)| == |got| * |Fragments(mss, m)|
  {
    var f := Fragments(mss, m);
    assert [m, m][1..] == [m] && [m][1..] == [];
    assert Stream(mss, [m]) == f + [] && Stream(mss, [m, m]) == f + Stream(mss, [m]);
    forall got: seq<Bytes> | got <= [m, m]
      ensures |Stream(mss, got)| == |got| * |f|
    {
      assert got == [m, m][..|got|];
      assert got == [] || got == [m] || got == [m, m];
    }
  }

  /** What the receiver's queue holds while nothing but the first fragments has been sent. */
  lemma NarrowQueue(x: Peer, y: Peer, m: Bytes)
    requires Dir(x, y) && x.accepted == [m, m] && PeekSize(y.e.r.queue) < 0
    requires var k := y.e.r.wnd % 0x1_0000; |Fragments(x.e.Mss(), m)| == k + 1 && x.e.s.nxt <= Last(y.e.r.wnd)
    ensures |y.e.r.queue| == if y.e.r.wnd % 0x1_0000 == 0 then 0 else y.e.r.nxt
  {
    TwoMessages(x.e.Mss(), m);
    if y.e.r.queue != [] {
      var next := NextMessage(x, y);
    }
  }

  /** With nothing in flight, the receiver has everything, and its queue has room until it looks shut. */
  lemma NarrowSettled(sys: System, m: Bytes)
    requires Narrow(sys, m)
    ensures sys.b.e.r.nxt == sys.a.e.s.nxt
    ensures sys.a.e.s.nxt < Last(sys.b.e.r.wnd) ==> |sys.b.e.r.queue| < sys.b.e.r.wnd
    ensures sys.a.e.s.nxt == Last(sys.b.e.r.wnd) ==> LooksShut(sys.b.e.r)
  {
    NarrowQueue(sys.a, sys.b, m);
    AtMostSent(sys.a, sys.b);
    if |sys.b.e.r.queue| < sys.b.e.r.wnd {
      NoGap(sys.a, sys.b);
    }
  }

  lemma NothingOut(s: Sender)
    requires SendOk(Unbounded, s, WIDEST) && s.buf == []
    ensures SendOk(Unbounded, s, 1) && s.una == s.nxt
  {
  }

  /** With a send window of one, at most one segment goes out. */
  lemma OneOut(p: Peer, now: int)
    requires p.e.Mss() > 0 && SendOk(Unbounded, p.e.s, WIDEST) && p.e.s.buf == [] && Tick(p.e.c, now).1
    requires ControlOk(p.e.c) && p.e.c.sndWnd == 1
    ensures var s := Updated(p, now).e.s; SendOk(Unbounded, s, 1) && s.una == p.e.s.nxt
  {
    NothingOut(p.e.s);
    UpdatedIsFlushed(p, now);
    FlushKeepsSendOk(Unbounded, Ticked(p, now).e, 1);
  }

  /** Of at most one segment in flight, none is left when the first is gone. */
  lemma LastGone(s: Sender, s': Sender)
    requires SendOk(Unbounded, s, 1) && Released(s, s') && s.una !in Sns(s'.buf)
    ensures s'.buf == [] && s'.nxt <= s.una + 1
  {
    forall sn <- Sns(s.buf)
      ensures sn == s.una
    {
      var i :| 0 <= i < |s.buf| && s.buf[i].sn == sn;
    }
    if s'.buf != [] {
      HeadAmong(s'.buf);
    }
  }

  lemma HeadAmong(buf: seq<Segment>)
    requires buf != []
    ensures buf[0].sn in Sns(buf)
  {
  }

  lemma OneSent(sys: System, ta: int, tb: int)
    requires Linked(sys.a, sys.b) && |sys.b.e.r.queue| < sys.b.e.r.wnd
    requires Moving(sys.a.e) && Timely(sys.a.e, sys.b.e, ta, tb)
    requires sys.a.e.s.buf == [] && sys.a.e.c.sndWnd == 1
    ensures var s' := Round(sys, ta, tb).a.e.s; s'.buf == [] && s'.nxt <= sys.a.e.s.nxt + 1
  {
    var a1, b1 := NotedOut(sys.a, sys.b, ta);
    var a2, b2 := RoundBack(a1, b1, tb);
    OneOut(sys.a, ta);
    NotedGone(a1, b1, tb, sys.a.e.s.una);
    NothingOut(sys.a.e.s);
    LastGone(a1.e.s, a2.e.s);
  }

  lemma NarrowMoves(sys: System, m: Bytes, ta: int, tb: int)
    requires Narrow(sys, m) && sys.a.e.s.nxt < Last(sys.b.e.r.wnd)
    requires Moving(sys.a.e) && Timely(sys.a.e, sys.b.e, ta, tb)
    ensures Narrowing(Round(sys, ta, tb), m)
  {
    NarrowSettled(sys, m);
    OneSent(sys, ta, tb);
    RoundLinked(sys, ta, tb);
    RoundTells(sys, ta, tb);
    NarrowSettled(Round(sys, ta, tb), m);
  }

  lemma NarrowWaits(sys: System, m: Bytes, ta: int, tb: int)
    requires Narrow(sys, m) && sys.a.e.s.nxt < Last(sys.b.e.r.wnd)
    requires !Moving(sys.a.e) && Timely(sys.a.e, sys.b.e, ta, tb)
    ensures Narrowing(Round(sys, ta, tb), m)
  {
    RoundLinked(sys, ta, tb);
    RoundWaits(sys, ta, tb);
  }

  lemma NarrowShut(sys: System, m: Bytes, ta: int, tb: int)
    requires Narrowing(sys, m) && sys.a.e.s.nxt == Last(sys.b.e.r.wnd) && Timely(sys.a.e, sys.b.e, ta, tb)
    ensures Narrowing(Round(sys, ta, tb), m)
  {
    NarrowSettled(sys, m);
    RoundLinked(sys, ta, tb);
    RoundEndsShut(sys, ta, tb);
    RoundKeepsQueue(sys, ta, tb);
  }

  /** No timely round makes an end of it. */
  lemma RoundStaysNarrow(sys: System, m: Bytes, ta: int, tb: int)
    requires Narrowing(sys, m) && Timely(sys.a.e, sys.b.e, ta, tb)
    ensures Narrowing(Round(sys, ta, tb), m)
  {
    if sys.a.e.s.nxt == Last(sys.b.e.r.wnd) {
      NarrowShut(sys, m, ta, tb);
    } else if Moving(sys.a.e) {
      NarrowMoves(sys, m, ta, tb);
    } else {
      NarrowWaits(sys, m, ta, tb);
    }
  }

  lemma NarrowUnsent(sys: System, m: Bytes)
    requires Narrow(sys, m)
    ensures sys.a.e.s.queue != []
  {
    TwoMessages(sys.a.e.Mss(), m);
    assert |Frags(sys.a)| == sys.a.e.s.nxt + |sys.a.e.s.queue|;
  }

  /** Two new endpoints, and two messages from the first. */
  function NarrowMessages(m: Bytes): seq<Move> { [MoveA(DoSend(m)), MoveA(DoSend(m))] }

  lemma NarrowStart(conv: int, ca: Config, cb: Config, m: Bytes)
    requires ConfigOk(ca) && ConfigOk(cb) && ca.sndWnd == 1
    requires |Fragments(ca.mtu - OVERHEAD, m)| == cb.rcvWnd % 0x1_0000 + 1 < WND_RCV && m != []
    ensures Narrowing(Run(Unbounded, NewSystem(conv, ca, cb), NarrowMessages(m)), m)
  {
    TwoSentLinked(conv, ca, cb, m);
    TwoSent(conv, ca, cb, m);
  }

  lemma TwoSentLinked(conv: int, ca: Config, cb: Config, m: Bytes)
    requires ConfigOk(ca) && ConfigOk(cb)
    ensures var end := Run(Unbounded, NewSystem(conv, ca, cb), NarrowMessages(m)); Linked(end.a, end.b)
  {
    var sys := NewSystem(conv, ca, cb);
    NewSystemLinked(conv, ca, cb);
    NextLinked(sys, MoveA(DoSend(m)));
    NextLinked(Next(Unbounded, sys, MoveA(DoSend(m))), MoveA(DoSend(m)));
    RunTwo(sys, MoveA(DoSend(m)), MoveA(DoSend(m)));
  }

  lemma TwoSent(conv: int, ca: Config, cb: Config, m: Bytes)
    requires ca.mtu > OVERHEAD && cb.mtu > OVERHEAD && m != [] && |Fragments(ca.mtu - OVERHEAD, m)| < WND_RCV
    ensures var end := Run(Unbounded, NewSystem(conv, ca, cb), NarrowMessages(m));
            && end.b == NewPeer(conv, cb) && end.a.accepted == [m, m] && end.a.e.mtu == ca.mtu
            && end.a.e.c == Init(conv, ca).c && end.a.e.s == Sender(0, 0, end.a.e.s.queue, [])
  {
    var sys := NewSystem(conv, ca, cb);
    SendsOne(sys, m);
    SendsOne(Next(Unbounded, sys, MoveA(DoSend(m))), m);
    RunTwo(sys, MoveA(DoSend(m)), MoveA(DoSend(m)));
  }

  lemma SendsOne(sys: System, m: Bytes)
    requires sys.a.e.Mss() > 0 && sys.b.e.Mss() > 0 && m != [] && |Fragments(sys.a.e.Mss(), m)| < WND_RCV
    ensures var sys' := Next(Unbounded, sys, MoveA(DoSend(m)));
            && sys'.b == sys.b && sys'.a.accepted == sys.a.accepted + [m] && sys'.a.e.mtu == sys.a.e.mtu
            && sys'.a.e.c == sys.a.e.c && sys'.a.e.s == sys.a.e.s.(queue := sys'.a.e.s.queue)
  {
    FragmentsCount(sys.a.e.Mss(), m);
  }

  lemma RunTwo(sys: System, m1: Move, m2: Move)
    requires sys.a.e.Mss() > 0 && sys.b.e.Mss() > 0
    requires var sys1 := Next(Unbounded, sys, m1); sys1.a.e.Mss() > 0 && sys1.b.e.Mss() > 0
    ensures Run(Unbounded, sys, [m1, m2]) == Next(Unbounded, Next(Unbounded, sys, m1), m2)
  {
    var sys1 := Next(Unbounded, sys, m1);
    assert [m1, m2][1..] == [m2] && [m2][1..] == [];
    assert Run(Unbounded, sys1, [m2]) == Run(Unbounded, Next(Unbounded, sys1, m2), []);
  }

  // ---------------------------------------------------------------- where rounds start

  lemma WorkBound(e: Endpoint)
    ensures Work(e) <= Backlog(e) + if Moving(e) then 0 else 2
  {
  }

  lemma ReadReady(x: Peer, y: Peer)
    requires Linked(x, y) && Roomy(y.e.r.wnd)
    ensures Ready(System(x, ReadDry(y)))
  {
    ReadDryLinked(x, y);
    ReadDryKeeps(y);
  }
}
