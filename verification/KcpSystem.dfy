/** Two endpoints and a network that never forgets a datagram. */
module KcpSystem {
  // The network holds every datagram either endpoint has ever sent, so that a datagram may arrive late, more than
  // once, out of order or never. A peer's move changes only that peer; each direction of the conversation has its own
  // invariant, and the theorems at the end hold after any list of moves.

  import opened Bytes
  import opened Serial
  import opened KcpModel
  import opened KcpWire
  import opened KcpReceive
  import opened KcpSend
  import opened KcpStream

  /** An endpoint, the datagrams it has sent, the messages its `send` accepted and those its `recv` returned. */
  datatype Peer = Peer(e: Endpoint, out: set<seq<Wire>>, accepted: seq<Bytes>, got: seq<Bytes>)

  datatype Action =
    | DoSend(data: Bytes)
    | DoRecv
    | DoFlush
    | DoUpdate(now: int)
    | DoTune(nodelay: int, interval: int, resend: int, nc: int)
    | DoInput(d: seq<Wire>)

  function FlushPeer(n: Numbering, p: Peer): Peer {
    p.(e := Flushed(n, p.e), out := p.out + (set d <- Datagrams(n, p.e)))
  }

  /** What peer p becomes when it acts; it may input only what its peer q has sent. */
  function Act(n: Numbering, p: Peer, q: Peer, a: Action): Peer
    requires p.e.Mss() > 0
  {
    match a
    case DoSend(data) =>
      if SendStatus(p.e.Mss(), data) == 0
      then p.(e := Send(p.e, data), accepted := p.accepted + [data])
      else p
    case DoRecv =>
      var (r, m) := Recv(n, p.e.r);
      p.(e := p.e.(r := r), got := if m.Some? then p.got + [m.value] else p.got)
    case DoFlush => FlushPeer(n, p)
    case DoUpdate(now) =>
      var (c, due) := Tick(p.e.c, now);
      var p1 := p.(e := p.e.(c := c));
      if due then FlushPeer(n, p1) else p1
    case DoTune(nodelay, interval, resend, nc) =>
      p.(e := p.e.(c := SetNodelay(p.e.c, nodelay, interval, resend, nc)))
    case DoInput(d) =>
      if d in q.out then p.(e := Input(n, p.e, d)) else p
  }

  // ---------------------------------------------------------------- the invariant

  const WIDEST := 0xFFFF

  /** The stream a peer's messages make. */
  function Frags(x: Peer): seq<Piece>
    requires x.e.Mss() > 0
  {
    Stream(x.e.Mss(), x.accepted)
  }

  ghost predicate ControlOk(c: Control) {
    0 <= c.rmtWnd <= WIDEST && 0 <= c.cwnd && 1 <= c.sndWnd
  }

  predicate MessageOk(mss: int, m: Bytes)
    requires mss > 0
  {
    |Fragments(mss, m)| < WND_RCV
  }

  ghost predicate PeerOk(x: Peer) {
    x.e.Mss() > 0 && ControlOk(x.e.c) && forall m <- x.accepted :: MessageOk(x.e.Mss(), m)
  }

  /** The sending half numbers the stream: below nxt what has been numbered, from nxt on what is queued. */
  ghost predicate SenderView(x: Peer)
    requires x.e.Mss() > 0
  {
    SendOk(Unbounded, x.e.s, WIDEST) && 0 <= x.e.s.una && OutStream(x.e.s, Frags(x))
  }

  ghost predicate OutStream(s: Sender, F: seq<Piece>) {
    && 0 <= s.nxt
    && s.nxt + |s.queue| == |F|
    && (forall i :: 0 <= i < |s.queue| ==> s.queue[i].Content() == F[s.nxt + i])
    && (forall seg <- s.buf :: 0 <= seg.sn < |F| && seg.Content() == F[seg.sn] && seg.cmd == CMD_PUSH)
  }

  /** A data segment on its way names a numbered fragment and carries it. */
  ghost predicate Genuine(x: Peer, w: Wire)
    requires x.e.Mss() > 0
  {
    w.cmd == CMD_PUSH ==> 0 <= w.sn < x.e.s.nxt && w.sn < |Frags(x)| && w.Content() == Frags(x)[w.sn]
  }

  /** The receiver has fragment sn. */
  predicate Got(r: Receiver, sn: int) {
    0 <= sn < r.nxt || sn in Sns(r.buf)
  }

  /** What a segment says about its sender's receiving half is true. */
  ghost predicate Truthful(r: Receiver, w: Wire) {
    && 0 <= w.una <= r.nxt
    && 0 <= w.wnd <= WIDEST
    && (w.cmd == CMD_ACK ==> Got(r, w.sn))
  }

  /** The receiving half holds the stream from the first message not yet read on. */
  ghost predicate ReceiverView(x: Peer, y: Peer)
    requires x.e.Mss() > 0
  {
    var F, r := Frags(x), y.e.r;
    var base := |Stream(x.e.Mss(), y.got)|;
    && RecvOk(Unbounded, r)
    && 0 <= r.nxt <= x.e.s.nxt
    && y.got <= x.accepted
    && base + |r.queue| == r.nxt
    && r.nxt <= |F|
    && (forall i :: 0 <= i < |r.queue| ==> r.queue[i].Content() == F[base + i])
    && (forall seg <- r.buf :: 0 <= seg.sn < x.e.s.nxt && seg.sn < |F| && seg.Content() == F[seg.sn])
  }

  /** Everything sent from y tells the truth about y's receiving half. */
  ghost predicate AckView(y: Peer) {
    && (forall a <- y.e.r.acks :: Got(y.e.r, a.0))
    && (forall d, w | d in y.out && w in d :: Truthful(y.e.r, w))
  }

  ghost predicate NetView(x: Peer)
    requires x.e.Mss() > 0
  {
    forall d, w | d in x.out && w in d :: Genuine(x, w)
  }

  /** No numbered fragment is lost: it is waiting for its acknowledgement or the receiver has it. */
  ghost predicate NoLoss(x: Peer, y: Peer) {
    forall sn :: 0 <= sn < x.e.s.nxt ==> Got(y.e.r, sn) || sn in Sns(x.e.s.buf)
  }

  /** The invariant of the direction from x to y. */
  ghost predicate Dir(x: Peer, y: Peer) {
    && PeerOk(x) && PeerOk(y)
    && SenderView(x) && NetView(x) && ReceiverView(x, y) && AckView(y) && NoLoss(x, y)
  }

  // ---------------------------------------------------------------- the receiver moves

  /** Promotion keeps every fragment the receiver has, and brings none. */
  lemma {:induction false} PromoteGot(r: Receiver)
    requires Sorted(Unbounded, r) && 0 <= r.nxt
    ensures forall sn :: Got(r, sn) <==> Got(Promote(Unbounded, r), sn)
    ensures r.nxt <= Promote(Unbounded, r).nxt
    decreases |r.buf|
  {
    if Promotable(Unbounded, r) {
      var r' := PromoteHead(Unbounded, r);
      PromoteOne(Unbounded, r);
      assert r.buf == [r.buf[0]] + r'.buf;
      assert Sns(r.buf) == {r.nxt} + Sns(r'.buf);
      assert forall sn :: Got(r, sn) <==> Got(r', sn);
      PromoteGot(r');
    }
  }

  /** The receiver holds fragments base.. of the stream F in its queue and later ones below top in its buffer. */
  ghost predicate InStream(r: Receiver, F: seq<Piece>, base: nat, top: int) {
    && base + |r.queue| == r.nxt <= top <= |F|
    && (forall i :: 0 <= i < |r.queue| ==> r.queue[i].Content() == F[base + i])
    && (forall seg <- r.buf :: 0 <= seg.sn < top && seg.Content() == F[seg.sn])
  }

  /** Promotion appends the next fragments of the stream to the queue. */
  lemma {:induction false} PromoteStream(r: Receiver, F: seq<Piece>, base: nat, top: int)
    requires Sorted(Unbounded, r) && InStream(r, F, base, top)
    ensures InStream(Promote(Unbounded, r), F, base, top)
    ensures Promote(Unbounded, r).acks == r.acks
    decreases |r.buf|
  {
    if Promotable(Unbounded, r) {
      PromoteOne(Unbounded, r);
      assert r.buf[0] in r.buf;
      PromoteStream(PromoteHead(Unbounded, r), F, base, top);
    }
  }

  /** What the receiver has after putting a fragment it may take into its buffer and promoting. */
  lemma PutGot(r: Receiver, seg: Segment)
    requires RecvOk(Unbounded, r) && 0 <= r.nxt <= seg.sn < r.nxt + r.wnd
    ensures var r' := Promote(Unbounded, r.(buf := Insert(Unbounded, r.buf, seg)));
            && (forall sn :: Got(r, sn) ==> Got(r', sn))
            && Got(r', seg.sn) && r.nxt <= r'.nxt && r'.acks == r.acks
  {
    var put := r.(buf := Insert(Unbounded, r.buf, seg));
    assert Off(Unbounded, r, seg.sn) == seg.sn - r.nxt;
    InsertIsSorted(Unbounded, r, seg);
    PromoteGot(put);
    PromoteShape(Unbounded, put);
    assert Got(put, seg.sn);
    assert forall sn :: Got(r, sn) ==> Got(put, sn);
  }

  lemma AbsorbGot(r: Receiver, w: Wire)
    requires RecvOk(Unbounded, r) && 0 <= r.nxt
    requires w.cmd == CMD_PUSH ==> 0 <= w.sn
    ensures var r' := ReceiverAbsorb(Unbounded, r, w);
            && (forall sn :: Got(r, sn) ==> Got(r', sn))
            && r.nxt <= r'.nxt
            && (forall a <- r'.acks :: a in r.acks || Got(r', a.0))
  {
    if w.cmd == CMD_PUSH && w.sn < r.nxt + r.wnd {
      var noted := r.(acks := r.acks + [(w.sn, w.ts)]);
      assert RecvOk(Unbounded, noted) && forall sn :: Got(r, sn) <==> Got(noted, sn);
      if w.sn >= r.nxt {
        PutGot(noted, Arrived(w));
      }
    }
  }

  lemma AbsorbStream(r: Receiver, w: Wire, F: seq<Piece>, base: nat, top: int)
    requires RecvOk(Unbounded, r) && InStream(r, F, base, top)
    requires w.cmd == CMD_PUSH ==> 0 <= w.sn < top && w.Content() == F[w.sn]
    ensures InStream(ReceiverAbsorb(Unbounded, r, w), F, base, top)
  {
    if w.cmd == CMD_PUSH && r.nxt <= w.sn < r.nxt + r.wnd {
      var noted := r.(acks := r.acks + [(w.sn, w.ts)]);
      var put := noted.(buf := Insert(Unbounded, r.buf, Arrived(w)));
      assert Sorted(Unbounded, noted) && Off(Unbounded, noted, w.sn) == w.sn - r.nxt;
      InsertIsSorted(Unbounded, noted, Arrived(w));
      PromoteStream(put, F, base, top);
    }
  }

  /** A receiver that has at least what it had before keeps the direction's invariant, given its stream and acks. */
  lemma ReceiverAdvances(x: Peer, y: Peer, y': Peer)
    requires Dir(x, y) && PeerOk(y')
    requires forall d, w | d in y'.out && w in d :: d in y.out || Truthful(y'.e.r, w)
    requires y.e.r.nxt <= y'.e.r.nxt
    requires forall sn :: Got(y.e.r, sn) ==> Got(y'.e.r, sn)
    requires forall a <- y'.e.r.acks :: a in y.e.r.acks || Got(y'.e.r, a.0)
    requires RecvOk(Unbounded, y'.e.r) && y'.got <= x.accepted
    requires InStream(y'.e.r, Frags(x), |Stream(x.e.Mss(), y'.got)|, x.e.s.nxt)
    ensures Dir(x, y')
  {
    forall d, w | d in y'.out && w in d
      ensures Truthful(y'.e.r, w)
    {
      if d in y.out {
        assert Truthful(y.e.r, w);
      }
    }
  }

  lemma GrowOk(c: Control, mss: int)
    requires ControlOk(c) && mss > 0
    ensures ControlOk(Grow(c, mss))
  {
  }

  lemma ReceiverAbsorbsOne(x: Peer, y: Peer, w: Wire)
    requires Dir(x, y) && Genuine(x, w) && 0 <= w.wnd <= WIDEST
    ensures Dir(x, y.(e := Absorb(Unbounded, y.e, w)))
  {
    AbsorbKeepsRecvOk(Unbounded, y.e.r, w);
    AbsorbGot(y.e.r, w);
    AbsorbStream(y.e.r, w, Frags(x), |Stream(x.e.Mss(), y.got)|, x.e.s.nxt);
    ReceiverAdvances(x, y, y.(e := Absorb(Unbounded, y.e, w)));
  }

  lemma {:induction false} ReceiverAbsorbs(x: Peer, y: Peer, ws: seq<Wire>)
    requires Dir(x, y) && forall w <- ws :: Genuine(x, w) && 0 <= w.wnd <= WIDEST
    ensures Dir(x, y.(e := AbsorbAll(Unbounded, y.e, ws)))
    decreases |ws|
  {
    if ws == [] {
      assert y.(e := y.e) == y;
    } else {
      ReceiverAbsorbsOne(x, y, ws[0]);
      var y1 := y.(e := Absorb(Unbounded, y.e, ws[0]));
      ReceiverAbsorbs(x, y1, ws[1..]);
      assert y1.(e := AbsorbAll(Unbounded, y1.e, ws[1..])) == y.(e := AbsorbAll(Unbounded, y.e, ws));
    }
  }

  /** A queue that holds a stream from after some of its messages on begins with the next message. */
  lemma NextInStream(mss: int, accepted: seq<Bytes>, got: seq<Bytes>, queue: seq<Segment>) returns (m: Bytes)
    requires mss > 0 && got <= accepted && queue != []
    requires |Stream(mss, got)| + |queue| <= |Stream(mss, accepted)|
    requires forall i :: 0 <= i < |queue| ==> queue[i].Content() == Stream(mss, accepted)[|Stream(mss, got)| + i]
    ensures |got| < |accepted| && m == accepted[|got|] && got + [m] <= accepted
    ensures PeekSize(queue) >= 0 <==> |queue| >= |Fragments(mss, m)|
    ensures |queue| >= |Fragments(mss, m)| ==> Carries(queue, Fragments(mss, m))
    ensures Stream(mss, got + [m]) == Stream(mss, got) + Fragments(mss, m)
  {
    var k := |got|;
    assert accepted[..k] == got && got != accepted;
    StreamAt(mss, accepted, k);
    m := accepted[k];
    assert accepted[..k + 1] == got + [m];
    forall i | 0 <= i < |queue| && i < |Fragments(mss, m)|
      ensures queue[i].Content() == Fragments(mss, m)[i]
    {
      assert Stream(mss, accepted)[|Stream(mss, got)| + i] == Stream(mss, accepted[k..])[i];
    }
    PeekIff(mss, m, queue);
  }

  /** The first fragments in the receive queue are those of the first message not yet read. */
  lemma NextMessage(x: Peer, y: Peer) returns (m: Bytes)
    requires Dir(x, y) && y.e.r.queue != []
    ensures |y.got| < |x.accepted| && m == x.accepted[|y.got|] && y.got + [m] <= x.accepted
    ensures PeekSize(y.e.r.queue) >= 0 <==> |y.e.r.queue| >= |Fragments(x.e.Mss(), m)|
    ensures |y.e.r.queue| >= |Fragments(x.e.Mss(), m)| ==> Carries(y.e.r.queue, Fragments(x.e.Mss(), m))
    ensures Stream(x.e.Mss(), y.got + [m]) == Stream(x.e.Mss(), y.got) + Fragments(x.e.Mss(), m)
  {
    m := NextInStream(x.e.Mss(), x.accepted, y.got, y.e.r.queue);
  }

  /** Taking fragments off the queue and promoting the next ones keeps the stream. */
  lemma TakeStream(r: Receiver, F: seq<Piece>, base: nat, top: int, k: nat)
    requires RecvOk(Unbounded, r) && InStream(r, F, base, top) && k <= |r.queue|
    ensures var r' := Promote(Unbounded, r.(queue := r.queue[k..]));
            && InStream(r', F, base + k, top)
            && r.nxt <= r'.nxt && r'.acks == r.acks && RecvOk(Unbounded, r')
            && forall sn :: Got(r, sn) ==> Got(r', sn)
  {
    var taken := r.(queue := r.queue[k..]);
    assert Sorted(Unbounded, taken);
    PromoteLeaves(Unbounded, taken);
    PromoteGot(taken);
    PromoteStream(taken, F, base + k, top);
    assert forall sn :: Got(r, sn) ==> Got(taken, sn);
  }

  lemma ReceiverTakes(x: Peer, y: Peer, m: Bytes)
    requires Dir(x, y) && y.got + [m] <= x.accepted
    requires |Fragments(x.e.Mss(), m)| <= |y.e.r.queue|
    requires Stream(x.e.Mss(), y.got + [m]) == Stream(x.e.Mss(), y.got) + Fragments(x.e.Mss(), m)
    ensures var k := |Fragments(x.e.Mss(), m)|;
            var r' := Promote(Unbounded, y.e.r.(queue := y.e.r.queue[k..]));
            Dir(x, y.(e := y.e.(r := r'), got := y.got + [m]))
  {
    var k := |Fragments(x.e.Mss(), m)|;
    var r' := Promote(Unbounded, y.e.r.(queue := y.e.r.queue[k..]));
    TakeStream(y.e.r, Frags(x), |Stream(x.e.Mss(), y.got)|, x.e.s.nxt, k);
    ReceiverAdvances(x, y, y.(e := y.e.(r := r'), got := y.got + [m]));
  }

  /** Reading: `recv` returns the next message of the sender's, whole. */
  lemma ReceiverReads(x: Peer, y: Peer)
    requires Dir(x, y)
    ensures Dir(x, Act(Unbounded, y, x, DoRecv))
    ensures Recv(Unbounded, y.e.r).1.Some? ==>
      |y.got| < |x.accepted| && Recv(Unbounded, y.e.r).1.value == x.accepted[|y.got|]
  {
    if PeekSize(y.e.r.queue) >= 0 {
      var m := NextMessage(x, y);
      ReadsBack(x.e.Mss(), m, y.e.r.queue);
      ReceiverTakes(x, y, m);
    } else {
      assert Act(Unbounded, y, x, DoRecv) == y;
    }
  }

  // ---------------------------------------------------------------- what a flush puts on the wire

  lemma {:induction false} OutgoingMembers(c: Control, st: Stamp, buf: seq<Segment>)
    ensures forall seg <- Outgoing(c, st, buf) ::
      exists i :: 0 <= i < |buf| && Why(c, buf[i]) != Quiet && seg == Transmit(c, st, buf[i])
  {
    if buf != [] {
      OutgoingMembers(c, st, buf[1..]);
      forall seg <- Outgoing(c, st, buf)
        ensures exists i :: 0 <= i < |buf| && Why(c, buf[i]) != Quiet && seg == Transmit(c, st, buf[i])
      {
        if seg in Outgoing(c, st, buf[1..]) {
          var i :| 0 <= i < |buf[1..]| && Why(c, buf[1..][i]) != Quiet && seg == Transmit(c, st, buf[1..][i]);
          assert buf[1..][i] == buf[i + 1];
        }
      }
    }
  }

  /** An emitted segment acknowledges, probes, or carries data from the send buffer; all carry the same stamp. */
  ghost predicate Explained(n: Numbering, e: Endpoint, seg: Segment) {
    && seg.una == e.r.nxt && seg.wnd == Unused(e.r)
    && ((seg.cmd == CMD_ACK && seg.data == [] && seg.frg == 0 && (seg.sn, seg.ts) in e.r.acks)
        || ((seg.cmd == CMD_WASK || seg.cmd == CMD_WINS) && seg.data == [] && seg.frg == 0 && seg.sn == 0)
        || (seg.cmd == CMD_PUSH
            && exists b <- Admitted(n, e).buf :: seg.sn == b.sn && seg.Content() == b.Content()))
  }

  lemma {:induction false} AdmitCommands(n: Numbering, s: Sender, st: Stamp, window: int, rto: int)
    requires forall seg <- s.buf :: seg.cmd == CMD_PUSH
    ensures forall seg <- Admit(n, s, st, window, rto).buf :: seg.cmd == CMD_PUSH
    decreases |s.queue|
  {
    if Diff(n, s.nxt, Norm(n, s.una + window)) < 0 && s.queue != [] {
      var seg := Numbered(s.queue[0], st, s.nxt, rto);
      AdmitCommands(n, s.(queue := s.queue[1..], nxt := Norm(n, s.nxt + 1), buf := s.buf + [seg]), st, window, rto);
    }
  }

  lemma EmittedExplained(n: Numbering, e: Endpoint)
    requires forall seg <- e.s.buf :: seg.cmd == CMD_PUSH
    ensures forall seg <- Emitted(n, e) :: Explained(n, e, seg)
  {
    var st, buf := StampOf(e), Admitted(n, e).buf;
    OutgoingMembers(e.c, st, buf);
    AdmitCommands(n, e.s, st, SendWindow(ProbeTimer(e.c)), e.c.rto);
    forall seg <- Emitted(n, e)
      ensures Explained(n, e, seg)
    {
      if seg in AckSegments(st, e.r.acks) {
        var i :| 0 <= i < |e.r.acks| && seg == AckSegment(st, e.r.acks[i]);
        assert e.r.acks[i] == (seg.sn, seg.ts);
      } else if seg in ProbeSegments(st, ProbeTimer(e.c)) {
      } else {
        var i :| 0 <= i < |buf| && Why(e.c, buf[i]) != Quiet && seg == Transmit(e.c, st, buf[i]);
        assert buf[i] in buf;
      }
    }
  }

  /** Every segment in a datagram of a flush is one of the emitted segments. */
  lemma InDatagram(n: Numbering, e: Endpoint, d: seq<Wire>, w: Wire) returns (seg: Segment)
    requires d in Datagrams(n, e) && w in d
    ensures seg in Emitted(n, e) && w == OnWire(n, seg)
  {
    var ws := OnWireAll(n, Emitted(n, e));
    InUnpack(Datagrams(n, e), d, w);
    PackKeepsAll(e.mtu, ws);
    var i :| 0 <= i < |ws| && ws[i] == w;
    seg := Emitted(n, e)[i];
  }

  // ---------------------------------------------------------------- the receiver moves, continued

  lemma FlushControlOk(n: Numbering, e: Endpoint)
    requires ControlOk(e.c)
    ensures ControlOk(Flushed(n, e).c)
  {
  }

  /** Every segment of a flush tells the truth about the flushing endpoint's receiving half. */
  lemma FlushTruthful(e: Endpoint, d: seq<Wire>, w: Wire)
    requires 0 <= e.r.nxt && forall a <- e.r.acks :: Got(e.r, a.0)
    requires forall seg <- e.s.buf :: seg.cmd == CMD_PUSH
    requires d in Datagrams(Unbounded, e) && w in d
    ensures Truthful(e.r, w)
  {
    EmittedExplained(Unbounded, e);
    var seg := InDatagram(Unbounded, e, d, w);
    assert Explained(Unbounded, e, seg);
  }

  lemma ReceiverFlushes(x: Peer, y: Peer)
    requires Dir(x, y) && Dir(y, x)
    ensures Dir(x, FlushPeer(Unbounded, y))
  {
    var y' := FlushPeer(Unbounded, y);
    assert y'.e.r == y.e.r.(acks := []);
    assert forall sn :: Got(y.e.r, sn) <==> Got(y'.e.r, sn);
    FlushControlOk(Unbounded, y.e);
    forall d, w | d in y'.out && w in d
      ensures d in y.out || Truthful(y'.e.r, w)
    {
      if d !in y.out {
        FlushTruthful(y.e, d, w);
      }
    }
    ReceiverAdvances(x, y, y');
  }

  lemma {:induction false} AbsorbAllControlOk(n: Numbering, e: Endpoint, ws: seq<Wire>)
    requires ControlOk(e.c) && forall w <- ws :: 0 <= w.wnd <= WIDEST
    ensures ControlOk(AbsorbAll(n, e, ws).c)
    decreases |ws|
  {
    if ws != [] {
      AbsorbAllControlOk(n, Absorb(n, e, ws[0]), ws[1..]);
    }
  }

  lemma InputControlOk(n: Numbering, e: Endpoint, ws: seq<Wire>)
    requires e.Mss() > 0 && ControlOk(e.c) && forall w <- ws :: 0 <= w.wnd <= WIDEST
    ensures ControlOk(Input(n, e, ws).c)
  {
    AbsorbAllControlOk(n, e, ws);
    GrowOk(AbsorbAll(n, e, ws).c, e.Mss());
  }

  lemma ReceiverInputs(x: Peer, y: Peer, d: seq<Wire>)
    requires Dir(x, y) && Dir(y, x) && d in x.out
    ensures Dir(x, y.(e := Input(Unbounded, y.e, d)))
  {
    forall w <- d
      ensures Genuine(x, w) && 0 <= w.wnd <= WIDEST
    {
      assert Truthful(x.e.r, w);
    }
    ReceiverAbsorbs(x, y, d);
    InputControlOk(Unbounded, y.e, d);
    var y1 := y.(e := AbsorbAll(Unbounded, y.e, d));
    var y2 := y.(e := Input(Unbounded, y.e, d));
    assert y2.e.r == y1.e.r;
    ReceiverAdvances(x, y1, y2);
  }

  lemma ReceiverMoves(x: Peer, y: Peer, a: Action)
    requires Dir(x, y) && Dir(y, x)
    ensures Dir(x, Act(Unbounded, y, x, a))
  {
    match a
    case DoSend(data) => ReceiverSends(x, y, data);
    case DoRecv => ReceiverReads(x, y);
    case DoFlush => ReceiverFlushes(x, y);
    case DoUpdate(now) => ReceiverUpdates(x, y, now);
    case DoTune(nodelay, interval, resend, nc) =>
      ReceiverKeeps(x, y, y.(e := y.e.(c := SetNodelay(y.e.c, nodelay, interval, resend, nc))));
    case DoInput(d) =>
      if d in x.out {
        ReceiverInputs(x, y, d);
      }
  }

  lemma ReceiverUpdates(x: Peer, y: Peer, now: int)
    requires Dir(x, y) && Dir(y, x)
    ensures Dir(x, Act(Unbounded, y, x, DoUpdate(now)))
  {
    ReceiverTicks(x, y, now);
    ActUpdate(Unbounded, y, x, now);
    if Tick(y.e.c, now).1 {
      SenderTicks(y, x, now);
      ReceiverFlushes(x, Ticked(y, now));
    }
  }

  lemma ReceiverSends(x: Peer, y: Peer, data: Bytes)
    requires Dir(x, y)
    ensures Dir(x, Act(Unbounded, y, x, DoSend(data)))
  {
    if data != [] {
      FragmentsCount(y.e.Mss(), data);
    }
    ReceiverKeeps(x, y, Act(Unbounded, y, x, DoSend(data)));
  }

  /** A change that leaves the receiving half alone. */
  lemma ReceiverKeeps(x: Peer, y: Peer, y': Peer)
    requires Dir(x, y) && PeerOk(y')
    requires y'.e.r == y.e.r && y'.out == y.out && y'.got == y.got
    ensures Dir(x, y')
  {
  }

  // ---------------------------------------------------------------- the sender moves

  /** A change that leaves the sending half alone. */
  lemma SenderKeeps(x: Peer, y: Peer, x': Peer)
    requires Dir(x, y) && PeerOk(x')
    requires x'.e.s == x.e.s && x'.e.mtu == x.e.mtu && x'.out == x.out && x'.accepted == x.accepted
    ensures Dir(x', y)
  {
    forall d, w | d in x'.out && w in d
      ensures Genuine(x', w)
    {
      assert Genuine(x, w);
    }
  }

  /** `send` appends the message's fragments to the stream. */
  lemma SendExtendsStream(x: Peer, data: Bytes)
    requires PeerOk(x) && SenderView(x) && SendStatus(x.e.Mss(), data) == 0
    ensures var x' := Act(Unbounded, x, x, DoSend(data));
            PeerOk(x') && SenderView(x') && Frags(x') == Frags(x) + Fragments(x.e.Mss(), data)
  {
    FragmentsCount(x.e.Mss(), data);
    StreamSnoc(x.e.Mss(), x.accepted, data);
    SendOutStream(x.e.s, Frags(x), Fragments(x.e.Mss(), data));
    assert forall m <- x.accepted + [data] :: m in x.accepted || m == data;
  }

  lemma SendOutStream(s: Sender, F: seq<Piece>, P: seq<Piece>)
    requires OutStream(s, F)
    ensures OutStream(s.(queue := s.queue + UnsentAll(P)), F + P)
  {
    var queue := s.queue + UnsentAll(P);
    forall i | 0 <= i < |queue|
      ensures queue[i].Content() == (F + P)[s.nxt + i]
    {
      if i >= |s.queue| {
        assert queue[i] == Unsent(P[i - |s.queue|]);
      }
    }
  }

  /** A sender with more to send keeps the direction's invariant. */
  lemma SenderExtends(x: Peer, y: Peer, x': Peer)
    requires Dir(x, y) && PeerOk(x') && SenderView(x')
    requires x'.e.mtu == x.e.mtu && x'.out == x.out && x.accepted <= x'.accepted
    requires Frags(x) <= Frags(x') && x'.e.s.nxt == x.e.s.nxt && x'.e.s.buf == x.e.s.buf
    ensures Dir(x', y)
  {
    forall d, w | d in x'.out && w in d
      ensures Genuine(x', w)
    {
      assert Genuine(x, w);
    }
  }

  lemma SenderSends(x: Peer, y: Peer, data: Bytes)
    requires Dir(x, y) && SendStatus(x.e.Mss(), data) == 0
    ensures Dir(Act(Unbounded, x, y, DoSend(data)), y)
  {
    var x' := Act(Unbounded, x, x, DoSend(data));
    SendExtendsStream(x, data);
    SenderExtends(x, y, x');
    assert Act(Unbounded, x, y, DoSend(data)) == x';
  }

  /** What an arriving segment removes from the send buffer is what it acknowledges. */
  lemma AbsorbRemoves(s: Sender, w: Wire)
    requires SendOk(Unbounded, s, WIDEST)
    ensures var s' := SenderAbsorb(Unbounded, s, w);
            && s'.nxt == s.nxt && s'.queue == s.queue
            && (forall seg <- s'.buf :: seg in s.buf)
            && (forall seg <- s.buf ::
                  seg in s'.buf || seg.sn < w.una || (w.cmd == CMD_ACK && seg.sn == w.sn))
  {
    UnboundedNeverStraddles(s, WIDEST, w.una);
    UnaEarlyStop(Unbounded, s, WIDEST, w.una);
    UncoveredMembers(Unbounded, s.buf, w.una);
    var s0 := ParseUna(Unbounded, s, w.una);
    var s1 := Shrink(s0);
    if w.cmd == CMD_ACK && InFlight(Unbounded, s1, w.sn) {
      SuffixOrdered(Unbounded, s, WIDEST, Covered(Unbounded, s.buf, w.una));
      ShrinkKeeps(Unbounded, s0, WIDEST);
      AckEarlyStop(Unbounded, s1, WIDEST, w.sn);
      WithoutMembers(s1.buf, w.sn);
    }
  }

  /** A sender whose buffer lost only what the receiver has keeps the direction's invariant. */
  lemma SenderReleases(x: Peer, y: Peer, x': Peer)
    requires Dir(x, y) && PeerOk(x')
    requires x'.e.mtu == x.e.mtu && x'.out == x.out && x'.accepted == x.accepted
    requires SendOk(Unbounded, x'.e.s, WIDEST) && x.e.s.una <= x'.e.s.una
    requires x'.e.s.nxt == x.e.s.nxt && x'.e.s.queue == x.e.s.queue
    requires forall seg <- x'.e.s.buf ::
      exists b <- x.e.s.buf :: seg.sn == b.sn && seg.Content() == b.Content() && seg.cmd == b.cmd
    requires forall seg <- x.e.s.buf :: seg.sn in Sns(x'.e.s.buf) || Got(y.e.r, seg.sn)
    ensures Dir(x', y)
  {
    forall d, w | d in x'.out && w in d
      ensures Genuine(x', w)
    {
      assert Genuine(x, w);
    }
    forall sn | 0 <= sn < x'.e.s.nxt
      ensures Got(y.e.r, sn) || sn in Sns(x'.e.s.buf)
    {
      if !Got(y.e.r, sn) {
        assert sn in Sns(x.e.s.buf);
        var seg :| seg in x.e.s.buf && seg.sn == sn;
      }
    }
  }

  lemma SenderAbsorbsOne(x: Peer, y: Peer, w: Wire)
    requires Dir(x, y) && Truthful(y.e.r, w)
    ensures Dir(x.(e := Absorb(Unbounded, x.e, w)), y)
  {
    AbsorbRemoves(x.e.s, w);
    AbsorbKeepsSendOk(Unbounded, x.e.s, WIDEST, w);
    AbsorbReleases(x.e.s, y.e.r, w);
    SenderReleases(x, y, x.(e := Absorb(Unbounded, x.e, w)));
  }

  /** What an arriving segment removes from the send buffer, the segment's sender has. */
  lemma AbsorbReleases(s: Sender, r: Receiver, w: Wire)
    requires SendOk(Unbounded, s, WIDEST) && Truthful(r, w)
    requires forall seg <- s.buf :: 0 <= seg.sn
    ensures var s' := SenderAbsorb(Unbounded, s, w);
            && (forall seg <- s.buf :: seg.sn in Sns(s'.buf) || Got(r, seg.sn))
            && forall seg <- s'.buf ::
                 exists b <- s.buf :: seg.sn == b.sn && seg.Content() == b.Content() && seg.cmd == b.cmd
  {
    AbsorbRemoves(s, w);
    forall seg <- SenderAbsorb(Unbounded, s, w).buf
      ensures exists b <- s.buf :: seg.sn == b.sn && seg.Content() == b.Content() && seg.cmd == b.cmd
    {
      assert seg in s.buf;
    }
  }

  lemma {:induction false} SenderAbsorbs(x: Peer, y: Peer, ws: seq<Wire>)
    requires Dir(x, y) && forall w <- ws :: Truthful(y.e.r, w)
    ensures Dir(x.(e := AbsorbAll(Unbounded, x.e, ws)), y)
    decreases |ws|
  {
    if ws == [] {
      assert x.(e := x.e) == x;
    } else {
      SenderAbsorbsOne(x, y, ws[0]);
      var x1 := x.(e := Absorb(Unbounded, x.e, ws[0]));
      SenderAbsorbs(x1, y, ws[1..]);
      assert x1.(e := AbsorbAll(Unbounded, x1.e, ws[1..])) == x.(e := AbsorbAll(Unbounded, x.e, ws));
    }
  }

  /** Counting skipped acknowledgements changes no number and no content. */
  lemma SenderSettles(x: Peer, y: Peer, x': Peer)
    requires Dir(x, y) && PeerOk(x')
    requires x'.e.mtu == x.e.mtu && x'.out == x.out && x'.accepted == x.accepted
    requires SameContents(x.e.s.buf, x'.e.s.buf) && x'.e.s == x.e.s.(buf := x'.e.s.buf)
    ensures Dir(x', y)
  {
    SameContentsKeeps(Unbounded, x.e.s, WIDEST, x'.e.s.buf);
    forall seg <- x'.e.s.buf
      ensures exists b <- x.e.s.buf :: seg.sn == b.sn && seg.Content() == b.Content() && seg.cmd == b.cmd
    {
      var i :| 0 <= i < |x'.e.s.buf| && x'.e.s.buf[i] == seg;
      assert x.e.s.buf[i] in x.e.s.buf;
    }
    forall seg <- x.e.s.buf
      ensures seg.sn in Sns(x'.e.s.buf)
    {
      var i :| 0 <= i < |x.e.s.buf| && x.e.s.buf[i] == seg;
      assert x'.e.s.buf[i] in x'.e.s.buf;
    }
    SenderReleases(x, y, x');
  }

  lemma SenderInputs(x: Peer, y: Peer, d: seq<Wire>)
    requires Dir(x, y) && d in y.out
    ensures Dir(x.(e := Input(Unbounded, x.e, d)), y)
  {
    assert forall w <- d :: Truthful(y.e.r, w);
    SenderAbsorbs(x, y, d);
    InputControlOk(Unbounded, x.e, d);
    var x1 := x.(e := AbsorbAll(Unbounded, x.e, d));
    var m := MarkAll(Unbounded, NoAck, d);
    if m.Newest? {
      CountSkipsSame(Unbounded, x1.e.s.buf, m.sn, m.ts);
    }
    SenderSettles(x1, y, x.(e := Input(Unbounded, x.e, d)));
  }

  /** Numbering keeps the stream: a queued fragment becomes a buffered one under its place in the stream. */
  lemma {:induction false} AdmitStream(s: Sender, F: seq<Piece>, st: Stamp, window: int, rto: int)
    requires OutStream(s, F)
    ensures var s' := Admit(Unbounded, s, st, window, rto);
            && OutStream(s', F) && s.nxt <= s'.nxt
            && (forall seg <- s.buf :: seg in s'.buf)
            && (forall sn :: s.nxt <= sn < s'.nxt ==> sn in Sns(s'.buf))
            && (forall seg <- s'.buf :: seg in s.buf || s.nxt <= seg.sn < s'.nxt)
    decreases |s.queue|
  {
    if s.nxt < s.una + window && s.queue != [] {
      var seg := Numbered(s.queue[0], st, s.nxt, rto);
      var s1 := s.(queue := s.queue[1..], nxt := s.nxt + 1, buf := s.buf + [seg]);
      assert s.queue[0].Content() == F[s.nxt + 0];
      assert OutStream(s1, F);
      AdmitStream(s1, F, st, window, rto);
      assert seg in s1.buf;
    }
  }

  /** The fragment counts of a stream of messages fit the byte that carries them. */
  lemma {:induction false} StreamFrg(mss: int, msgs: seq<Bytes>)
    requires mss > 0 && forall m <- msgs :: MessageOk(mss, m)
    ensures forall p <- Stream(mss, msgs) :: 0 <= p.frg < WND_RCV && |p.data| <= mss
  {
    if msgs != [] {
      FragmentsSmall(mss, msgs[0]);
      StreamFrg(mss, msgs[1..]);
      assert MessageOk(mss, msgs[0]);
      forall p <- Fragments(mss, msgs[0])
        ensures 0 <= p.frg < WND_RCV && |p.data| <= mss
      {
        var i :| 0 <= i < |Fragments(mss, msgs[0])| && Fragments(mss, msgs[0])[i] == p;
      }
    }
  }

  /** What numbering leaves in the send buffer, fragment by fragment. */
  lemma AdmittedFragment(x: Peer, b: Segment)
    requires PeerOk(x) && SenderView(x) && b in Admitted(Unbounded, x.e).buf
    ensures 0 <= b.sn < Admitted(Unbounded, x.e).nxt && b.sn < |Frags(x)|
    ensures b.Content() == Frags(x)[b.sn] && 0 <= b.frg < WND_RCV && |b.data| <= x.e.Mss()
  {
    AdmitStream(x.e.s, Frags(x), StampOf(x.e), SendWindow(ProbeTimer(x.e.c)), x.e.c.rto);
    StreamFrg(x.e.Mss(), x.accepted);
    assert Frags(x)[b.sn] in Frags(x);
    if b in x.e.s.buf {
      var i :| 0 <= i < |x.e.s.buf| && x.e.s.buf[i] == b;
      assert Ahead(Unbounded, x.e.s, x.e.s.buf[i].sn) < Span(Unbounded, x.e.s);
    }
  }

  /** A segment that carries fragment sn of the stream F, numbered below top. */
  ghost predicate CarriesFragment(F: seq<Piece>, top: int, sn: int, p: Piece) {
    0 <= sn < top && sn < |F| && p == F[sn] && 0 <= p.frg < WND_RCV
  }

  /** Data segments of a flush carry what the send buffer holds. */
  lemma FlushCarries(e: Endpoint, F: seq<Piece>, top: int, d: seq<Wire>, w: Wire)
    requires forall seg <- e.s.buf :: seg.cmd == CMD_PUSH
    requires forall b <- Admitted(Unbounded, e).buf :: CarriesFragment(F, top, b.sn, b.Content())
    requires d in Datagrams(Unbounded, e) && w in d && w.cmd == CMD_PUSH
    ensures CarriesFragment(F, top, w.sn, w.Content())
  {
    var seg := InDatagram(Unbounded, e, d, w);
    EmittedExplained(Unbounded, e);
    ExplainedCarries(e, F, top, seg);
  }

  lemma ExplainedCarries(e: Endpoint, F: seq<Piece>, top: int, seg: Segment)
    requires forall b <- Admitted(Unbounded, e).buf :: CarriesFragment(F, top, b.sn, b.Content())
    requires Explained(Unbounded, e, seg) && OnWire(Unbounded, seg).cmd == CMD_PUSH
    ensures var w := OnWire(Unbounded, seg); CarriesFragment(F, top, w.sn, w.Content())
  {
    var b :| b in Admitted(Unbounded, e).buf && seg.sn == b.sn && seg.Content() == b.Content();
  }

  /** A flush numbers fragments and drops none from the send buffer. */
  lemma FlushSenderView(x: Peer)
    requires PeerOk(x) && SenderView(x)
    ensures var s, s' := x.e.s, Flushed(Unbounded, x.e).s;
            && SendOk(Unbounded, s', WIDEST) && s'.una == s.una && OutStream(s', Frags(x))
            && s.nxt <= s'.nxt == Admitted(Unbounded, x.e).nxt
            && (forall sn :: sn in Sns(s.buf) || s.nxt <= sn < s'.nxt ==> sn in Sns(s'.buf))
  {
    var s, t := x.e.s, Admitted(Unbounded, x.e);
    AdmitStream(s, Frags(x), StampOf(x.e), SendWindow(ProbeTimer(x.e.c)), x.e.c.rto);
    FlushKeepsSendOk(Unbounded, x.e, WIDEST);
    TransmitSame(x.e.c, StampOf(x.e), t.buf);
    SameStream(t, Flushed(Unbounded, x.e).s, Frags(x));
    forall sn | sn in Sns(s.buf)
      ensures sn in Sns(t.buf)
    {
      var seg :| seg in s.buf && seg.sn == sn;
      assert seg in t.buf;
    }
  }

  lemma SenderFlushes(x: Peer, y: Peer)
    requires Dir(x, y)
    ensures Dir(FlushPeer(Unbounded, x), y)
  {
    FlushSenderView(x);
    FlushControlOk(Unbounded, x.e);
    var top := Flushed(Unbounded, x.e).s.nxt;
    forall b <- Admitted(Unbounded, x.e).buf
      ensures CarriesFragment(Frags(x), top, b.sn, b.Content())
    {
      AdmittedFragment(x, b);
    }
    forall d, w | d in Datagrams(Unbounded, x.e) && w in d && w.cmd == CMD_PUSH
      ensures CarriesFragment(Frags(x), top, w.sn, w.Content())
    {
      FlushCarries(x.e, Frags(x), top, d, w);
    }
    SenderNumbers(x, y, FlushPeer(Unbounded, x));
  }

  /** A sender that has numbered and sent more keeps the direction's invariant. */
  lemma SenderNumbers(x: Peer, y: Peer, x': Peer)
    requires Dir(x, y) && PeerOk(x') && SenderView(x')
    requires x'.e.mtu == x.e.mtu && x'.accepted == x.accepted && x.e.s.nxt <= x'.e.s.nxt
    requires forall d, w | d in x'.out && w in d :: d in x.out || Genuine(x', w)
    requires forall sn :: sn in Sns(x.e.s.buf) || x.e.s.nxt <= sn < x'.e.s.nxt ==> sn in Sns(x'.e.s.buf)
    ensures Dir(x', y)
  {
    forall d, w | d in x'.out && w in d
      ensures Genuine(x', w)
    {
      if d in x.out {
        assert Genuine(x, w);
      }
    }
  }

  lemma TransmitSame(c: Control, st: Stamp, buf: seq<Segment>)
    ensures SameContents(buf, TransmitAll(c, st, buf))
  {
  }

  /** Rewriting timers in the send buffer leaves the stream and the numbers alone. */
  lemma SameStream(s: Sender, s': Sender, F: seq<Piece>)
    requires OutStream(s, F) && s' == s.(buf := s'.buf) && SameContents(s.buf, s'.buf)
    ensures OutStream(s', F) && Sns(s'.buf) == Sns(s.buf)
  {
    forall seg <- s'.buf
      ensures 0 <= seg.sn < |F| && seg.Content() == F[seg.sn] && seg.cmd == CMD_PUSH && seg.sn in Sns(s.buf)
    {
      var i :| 0 <= i < |s'.buf| && s'.buf[i] == seg;
      assert s.buf[i] in s.buf;
    }
    forall seg <- s.buf
      ensures seg.sn in Sns(s'.buf)
    {
      var i :| 0 <= i < |s.buf| && s.buf[i] == seg;
      assert s'.buf[i] in s'.buf;
    }
  }

  lemma SenderMoves(x: Peer, y: Peer, a: Action)
    requires Dir(x, y)
    ensures Dir(Act(Unbounded, x, y, a), y)
  {
    match a
    case DoSend(data) =>
      if SendStatus(x.e.Mss(), data) == 0 {
        SenderSends(x, y, data);
      }
    case DoRecv => SenderReads(x, y);
    case DoFlush => SenderFlushes(x, y);
    case DoUpdate(now) => SenderUpdates(x, y, now);
    case DoTune(nodelay, interval, resend, nc) => SenderTunes(x, y, nodelay, interval, resend, nc);
    case DoInput(d) =>
      if d in y.out {
        SenderInputs(x, y, d);
      }
  }

  lemma SenderReads(x: Peer, y: Peer)
    requires Dir(x, y)
    ensures Dir(Act(Unbounded, x, y, DoRecv), y)
  {
    SenderKeeps(x, y, Act(Unbounded, x, y, DoRecv));
  }

  lemma SenderTunes(x: Peer, y: Peer, nodelay: int, interval: int, resend: int, nc: int)
    requires Dir(x, y)
    ensures Dir(Act(Unbounded, x, y, DoTune(nodelay, interval, resend, nc)), y)
  {
    SenderKeeps(x, y, x.(e := x.e.(c := SetNodelay(x.e.c, nodelay, interval, resend, nc))));
  }

  lemma SenderUpdates(x: Peer, y: Peer, now: int)
    requires Dir(x, y)
    ensures Dir(Act(Unbounded, x, y, DoUpdate(now)), y)
  {
    SenderTicks(x, y, now);
    ActUpdate(Unbounded, x, y, now);
    if Tick(x.e.c, now).1 {
      SenderFlushes(Ticked(x, now), y);
    }
  }

  lemma ActUpdate(n: Numbering, p: Peer, q: Peer, now: int)
    requires p.e.Mss() > 0
    ensures Act(n, p, q, DoUpdate(now)) == if Tick(p.e.c, now).1 then FlushPeer(n, Ticked(p, now)) else Ticked(p, now)
  {
  }

  /** A peer whose clock has been read but which has not flushed. */
  function Ticked(p: Peer, now: int): Peer {
    p.(e := p.e.(c := Tick(p.e.c, now).0))
  }

  lemma SenderTicks(x: Peer, y: Peer, now: int)
    requires Dir(x, y)
    ensures Dir(Ticked(x, now), y)
  {
    SenderKeeps(x, y, Ticked(x, now));
  }

  lemma ReceiverTicks(x: Peer, y: Peer, now: int)
    requires Dir(x, y)
    ensures Dir(x, Ticked(y, now))
  {
    ReceiverKeeps(x, y, Ticked(y, now));
  }

  // ---------------------------------------------------------------- whole runs

  datatype System = System(a: Peer, b: Peer)

  /** One peer acts. */
  datatype Move = MoveA(act: Action) | MoveB(act: Action)

  ghost predicate Good(sys: System) {
    Dir(sys.a, sys.b) && Dir(sys.b, sys.a)
  }

  function Next(n: Numbering, sys: System, m: Move): System
    requires sys.a.e.Mss() > 0 && sys.b.e.Mss() > 0
  {
    match m
    case MoveA(act) => sys.(a := Act(n, sys.a, sys.b, act))
    case MoveB(act) => sys.(b := Act(n, sys.b, sys.a, act))
  }

  lemma ActKeepsMtu(n: Numbering, p: Peer, q: Peer, a: Action)
    requires p.e.Mss() > 0
    ensures Act(n, p, q, a).e.mtu == p.e.mtu && Act(n, p, q, a).e.conv == p.e.conv
  {
  }

  function Run(n: Numbering, sys: System, moves: seq<Move>): (end: System)
    requires sys.a.e.Mss() > 0 && sys.b.e.Mss() > 0
    ensures end.a.e.mtu == sys.a.e.mtu && end.b.e.mtu == sys.b.e.mtu
    decreases |moves|
  {
    if moves == [] then sys
    else
      ActKeepsMtu(n, sys.a, sys.b, moves[0].act);
      ActKeepsMtu(n, sys.b, sys.a, moves[0].act);
      Run(n, Next(n, sys, moves[0]), moves[1..])
  }

  /** The settings the constructor accepts and the whole-run results need. */
  predicate ConfigOk(config: Config) {
    50 <= config.mtu < M32 && 1 <= config.sndWnd && 1 <= config.rcvWnd < HALF - 0x2_0000
  }

  function NewPeer(conv: int, config: Config): Peer {
    Peer(Init(conv, config), {}, [], [])
  }

  function NewSystem(conv: int, ca: Config, cb: Config): System {
    System(NewPeer(conv, ca), NewPeer(conv, cb))
  }

  lemma NewSystemGood(conv: int, ca: Config, cb: Config)
    requires ConfigOk(ca) && ConfigOk(cb)
    ensures Good(NewSystem(conv, ca, cb))
  {
  }

  lemma MoveKeepsGood(sys: System, m: Move)
    requires Good(sys)
    ensures Good(Next(Unbounded, sys, m))
  {
    match m
    case MoveA(act) =>
      SenderMoves(sys.a, sys.b, act);
      ReceiverMoves(sys.b, sys.a, act);
    case MoveB(act) =>
      SenderMoves(sys.b, sys.a, act);
      ReceiverMoves(sys.a, sys.b, act);
  }

  lemma {:induction false} RunKeepsGood(sys: System, moves: seq<Move>)
    requires Good(sys)
    ensures Good(Run(Unbounded, sys, moves))
    decreases |moves|
  {
    if moves != [] {
      MoveKeepsGood(sys, moves[0]);
      RunKeepsGood(Next(Unbounded, sys, moves[0]), moves[1..]);
    }
  }

  // ---------------------------------------------------------------- the theorems

  /**
   Reliable ordered delivery: after any moves over any losing, duplicating and reordering network, what either side
   has read is a prefix of what the other side's `send` accepted.
   */
  lemma DeliveredIsPrefix(conv: int, ca: Config, cb: Config, moves: seq<Move>)
    requires ConfigOk(ca) && ConfigOk(cb)
    ensures var end := Run(Unbounded, NewSystem(conv, ca, cb), moves);
            end.b.got <= end.a.accepted && end.a.got <= end.b.accepted
  {
    NewSystemGood(conv, ca, cb);
    RunKeepsGood(NewSystem(conv, ca, cb), moves);
  }

  /** A full receive queue always yields the next message, so a full queue can never stop the reader for good. */
  lemma FullQueueReads(x: Peer, y: Peer)
    requires Dir(x, y)
    requires |y.e.r.queue| >= y.e.r.wnd >= WND_RCV - 1
    ensures |y.got| < |x.accepted| && Recv(Unbounded, y.e.r).1 == Some(x.accepted[|y.got|])
  {
    var m := NextMessage(x, y);
    assert MessageOk(x.e.Mss(), m);
    ReceiverReads(x, y);
  }

  /** A full receive queue yields the next of the messages accepted at the other end. */
  predicate NeverStuck(n: Numbering, accepted: seq<Bytes>, r: Receiver, got: seq<Bytes>) {
    |r.queue| >= r.wnd >= WND_RCV - 1 ==> |got| < |accepted| && Recv(n, r).1 == Some(accepted[|got|])
  }

  lemma FullNeverStuck(x: Peer, y: Peer)
    requires Dir(x, y)
    ensures NeverStuck(Unbounded, x.accepted, y.e.r, y.got)
  {
    if |y.e.r.queue| >= y.e.r.wnd >= WND_RCV - 1 {
      FullQueueReads(x, y);
    }
  }

  /** `recv` returns a message exactly when the whole next message has been moved to the queue. */
  lemma RecvReadsIff(x: Peer, y: Peer)
    requires Dir(x, y) && y.e.r.queue != []
    ensures |y.got| < |x.accepted|
    ensures Recv(Unbounded, y.e.r).1.Some?
            <==> |y.e.r.queue| >= |Fragments(x.e.Mss(), x.accepted[|y.got|])|
  {
    var m := NextMessage(x, y);
  }
}
