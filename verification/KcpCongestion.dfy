/** The congestion window (tuya_p2p/_kcp_python.py:306-321, 492-496, 561-574). */
module KcpCongestion {
  // The window in segments and the window in bytes are kept in two fields that five places update separately; the
  // invariant here ties them together over every run.

  import opened Bytes
  import opened Serial
  import opened KcpModel
  import opened KcpSystem
  import opened KcpWire
  import opened KcpPacking

  /** cwnd is how many whole segments fit incr bytes, and the slow-start threshold never drops below two. */
  predicate WindowOk(c: Control, mss: int) {
    c.ssthresh >= THRESH_MIN && c.cwnd >= 0 && c.cwnd * mss <= c.incr < (c.cwnd + 1) * mss
  }

  lemma ShareIsHalf(mss: int, incr: int)
    requires mss > 0 && 2 * mss <= incr
    ensures 0 <= mss * mss / incr <= mss / 2
  {
    var q := mss * mss / incr;
    assert mss * mss == incr * q + mss * mss % incr;
    if q < 0 {
      MulAtLeast(q, incr);
    }
    if q >= 0 {
      TwiceProduct(q, mss, incr);
    }
    if 2 * q > mss {
      MulAtLeast(2 * q - mss, mss);
    }
  }

  lemma TwiceProduct(q: int, mss: int, incr: int)
    requires q >= 0 && 2 * mss <= incr
    ensures (2 * q - mss) * mss <= q * incr - mss * mss
  {
    assert q * (2 * mss) <= q * incr;
  }

  lemma Multiples(cwnd: int, mss: int)
    ensures (cwnd + 1) * mss == cwnd * mss + mss && (cwnd + 2) * mss == cwnd * mss + 2 * mss
  {
  }

  lemma AtLeastTwo(cwnd: int, mss: int)
    requires cwnd >= 2 && mss > 0
    ensures cwnd * mss >= 2 * mss
  {
  }

  /**
   Growth after progress: by at most one segment, never past the peer's window, and with the byte count in step, so
   the single comparison of the source is enough.
   */
  lemma GrowKeepsWindow(c: Control, mss: int)
    requires WindowOk(c, mss) && mss > 0
    ensures WindowOk(Grow(c, mss), mss)
    ensures c.cwnd <= Grow(c, mss).cwnd <= c.cwnd + 1 && Grow(c, mss).cwnd <= Max(c.cwnd, c.rmtWnd)
    ensures c.cwnd < c.rmtWnd ==> c.incr <= Grow(c, mss).incr <= c.incr + mss
    ensures c.cwnd >= c.ssthresh ==> c.incr >= 2 * mss
  {
    Multiples(c.cwnd, mss);
    if c.cwnd >= c.ssthresh {
      AtLeastTwo(c.cwnd, mss);
      ShareIsHalf(mss, c.incr);
    }
  }

  /**
   How much that is: nothing at the peer's window; below it one segment in slow start, and otherwise, of `incr` bytes,
   mss * mss / incr and mss / 16 bytes, both rounded down, with a segment more once they fill one.
   */
  lemma GrowIs(c: Control, mss: int, share: int, sixteenth: int)
    requires WindowOk(c, mss) && mss > 0
    requires c.incr >= mss ==> share * c.incr <= mss * mss < (share + 1) * c.incr
    requires 16 * sixteenth <= mss < 16 * sixteenth + 16
    ensures var c' := Grow(c, mss);
            && (c.cwnd >= c.rmtWnd ==> c' == c)
            && (c.cwnd < c.rmtWnd && c.cwnd < c.ssthresh ==> c'.cwnd == c.cwnd + 1 && c'.incr == c.incr + mss)
            && (c.cwnd < c.rmtWnd && c.cwnd >= c.ssthresh ==>
                  && c'.incr == c.incr + share + sixteenth
                  && (c'.cwnd == c.cwnd + 1 <==> (c.cwnd + 1) * mss <= c'.incr))
            && c'.ssthresh == c.ssthresh
  {
    Multiples(c.cwnd, mss);
    if c.cwnd >= c.ssthresh {
      AtLeastTwo(c.cwnd, mss);
      DivIs(mss * mss, c.incr, share, mss * mss - share * c.incr);
    }
  }

  /** Input without progress leaves the window alone, and so does input that ends in an error. */
  lemma NoProgressNoGrowth(n: Numbering, e: Endpoint, ws: seq<Wire>)
    requires e.Mss() > 0
    ensures var e' := Input(n, e, ws);
            Diff(n, e'.s.una, e.s.una) <= 0 ==>
              e'.c.cwnd == e.c.cwnd && e'.c.incr == e.c.incr && e'.c.ssthresh == e.c.ssthresh
  {
    AbsorbAllWindowSame(n, e, ws);
  }

  lemma ErrorsDoNotGrow(e: Endpoint, packet: Bytes)
    requires e.Mss() > 0 && InputPacket(e, packet).1 != 0
    ensures var c := InputPacket(e, packet).0.c; c.cwnd == e.c.cwnd && c.incr == e.c.incr && c.ssthresh == e.c.ssthresh
  {
    AbsorbAllWindowSame(Wrapping, e, Parse(e.conv, packet).wires);
  }

  /** Datagrams each of which acknowledges something new, none of them changing the peer's window. */
  function Progress(c: Control, mss: int, count: nat): Control
    requires mss > 0
    decreases count
  {
    if count == 0 then c else Progress(Grow(c, mss), mss, count - 1)
  }

  /** Slow start: one segment for each datagram that makes progress, up to the threshold and the peer's window. */
  lemma {:induction false} SlowStart(c: Control, mss: int, count: nat)
    requires WindowOk(c, mss) && mss > 0 && c.cwnd + count <= c.ssthresh && c.cwnd + count <= c.rmtWnd
    ensures Progress(c, mss, count).cwnd == c.cwnd + count
    decreases count
  {
    if count > 0 {
      GrowKeepsWindow(c, mss);
      SlowStart(Grow(c, mss), mss, count - 1);
    }
  }

  /**
   How a new endpoint starts: one segment from its first flush on, a second with the first progress, and from then on,
   past its threshold of two, half a segment and a sixteenth for each.
   */
  lemma StartsAtOne(n: Numbering, conv: int, config: Config, c: Control)
    requires config.mtu >= 50 && c == Flushed(n, Init(conv, config)).c
    ensures var mss := config.mtu - 24;
            && c.cwnd == 1 && c.incr == mss && c.ssthresh == 2 && c.rmtWnd == 128
            && Progress(c, mss, 1).cwnd == 2 && Progress(c, mss, 1).incr == 2 * mss
            && Progress(c, mss, 2).incr == 2 * mss + mss / 2 + mss / 16
  {
    var mss := config.mtu - 24;
    var c1 := Grow(c, mss);
    assert c1.cwnd == 2 && c1.incr == 2 * mss;
    DivIs(mss * mss, 2 * mss, mss / 2, mss * mss - mss / 2 * (2 * mss)) by {
      HalfOf(mss);
    }
    assert Progress(c, mss, 2) == Progress(c1, mss, 1) == Progress(Grow(c1, mss), mss, 0);
  }

  lemma HalfOf(mss: int)
    requires mss > 0
    ensures 0 <= mss * mss - mss / 2 * (2 * mss) < 2 * mss
  {
    var half, odd := mss / 2, mss % 2;
    assert mss == 2 * half + odd;
    assert mss * mss - half * (2 * mss) == mss * odd;
  }

  /** A flush that saw trouble restarts the window, in segments and in bytes alike, and leaves room for at least one. */
  lemma ReactKeepsWindow(n: Numbering, c: Control, s: Sender, mss: int, window: int, fast: nat, lost: nat)
    requires WindowOk(c, mss) && mss > 0
    ensures var c' := React(n, c, s, mss, window, fast, lost);
            && WindowOk(c', mss) && c'.cwnd >= 1
            && (lost > 0 ==> c'.cwnd == 1)
            && (lost == 0 && fast > 0 ==> c'.cwnd > c'.ssthresh)
            && (lost == 0 && fast == 0 ==> c'.ssthresh == c.ssthresh && c'.cwnd == Max(1, c.cwnd))
  {
    var c' := React(n, c, s, mss, window, fast, lost);
    Multiples(c'.cwnd, mss);
    Multiples(c.cwnd, mss);
  }

  lemma {:induction false} AbsorbAllWindowSame(n: Numbering, e: Endpoint, ws: seq<Wire>)
    ensures var c := AbsorbAll(n, e, ws).c; c.cwnd == e.c.cwnd && c.incr == e.c.incr && c.ssthresh == e.c.ssthresh
    decreases |ws|
  {
    if ws != [] {
      AbsorbAllWindowSame(n, Absorb(n, e, ws[0]), ws[1..]);
    }
  }

  lemma FlushKeepsWindow(n: Numbering, e: Endpoint)
    requires e.Mss() > 0 && WindowOk(e.c, e.Mss())
    ensures WindowOk(Flushed(n, e).c, e.Mss()) && Flushed(n, e).c.cwnd >= 1
  {
    var c := ProbeTimer(e.c).(askSend := false, askTell := false);
    var s := Admitted(n, e);
    ReactKeepsWindow(n, c, s.(buf := TransmitAll(e.c, StampOf(e), s.buf)), e.Mss(), SendWindow(c),
                     CountReason(e.c, s.buf, Fast), CountReason(e.c, s.buf, Timeout));
  }

  lemma InputKeepsWindow(n: Numbering, e: Endpoint, ws: seq<Wire>)
    requires e.Mss() > 0 && WindowOk(e.c, e.Mss())
    ensures WindowOk(Input(n, e, ws).c, e.Mss())
  {
    AbsorbAllWindowSame(n, e, ws);
    GrowKeepsWindow(AbsorbAll(n, e, ws).c, e.Mss());
  }

  lemma ActKeepsWindow(n: Numbering, p: Peer, q: Peer, a: Action)
    requires p.e.Mss() > 0 && WindowOk(p.e.c, p.e.Mss())
    ensures WindowOk(Act(n, p, q, a).e.c, p.e.Mss())
  {
    match a
    case DoInput(d) => InputKeepsWindow(n, p.e, d);
    case DoFlush => FlushKeepsWindow(n, p.e);
    case DoUpdate(now) => FlushKeepsWindow(n, p.e.(c := Tick(p.e.c, now).0));
    case DoTune(nodelay, interval, resend, nc) =>
    case DoSend(data) =>
    case DoRecv =>
  }

  lemma {:induction false} RunKeepsWindow(n: Numbering, sys: System, moves: seq<Move>)
    requires sys.a.e.Mss() > 0 && sys.b.e.Mss() > 0
    requires WindowOk(sys.a.e.c, sys.a.e.Mss()) && WindowOk(sys.b.e.c, sys.b.e.Mss())
    ensures WindowOk(Run(n, sys, moves).a.e.c, sys.a.e.Mss())
    ensures WindowOk(Run(n, sys, moves).b.e.c, sys.b.e.Mss())
    decreases |moves|
  {
    if moves != [] {
      ActKeepsMtu(n, sys.a, sys.b, moves[0].act);
      ActKeepsMtu(n, sys.b, sys.a, moves[0].act);
      ActKeepsWindow(n, sys.a, sys.b, moves[0].act);
      ActKeepsWindow(n, sys.b, sys.a, moves[0].act);
      RunKeepsWindow(n, Next(n, sys, moves[0]), moves[1..]);
    }
  }

  /**
   In every run of two new endpoints, whatever is lost, repeated or reordered, the congestion window in segments is
   exactly the whole segments that fit the window in bytes.
   */
  lemma WindowMatchesBytes(n: Numbering, conv: int, ca: Config, cb: Config, moves: seq<Move>)
    requires ca.mtu >= 50 && cb.mtu >= 50
    ensures var end := Run(n, NewSystem(conv, ca, cb), moves);
            && end.a.e.c.cwnd == end.a.e.c.incr / end.a.e.Mss() && end.a.e.c.ssthresh >= 2
            && end.b.e.c.cwnd == end.b.e.c.incr / end.b.e.Mss() && end.b.e.c.ssthresh >= 2
  {
    RunKeepsWindow(n, NewSystem(conv, ca, cb), moves);
    var end := Run(n, NewSystem(conv, ca, cb), moves);
    WholeSegments(end.a.e.c, end.a.e.Mss());
    WholeSegments(end.b.e.c, end.b.e.Mss());
  }

  lemma WholeSegments(c: Control, mss: int)
    requires WindowOk(c, mss) && mss > 0
    ensures c.cwnd == c.incr / mss
  {
    Multiples(c.cwnd, mss);
    DivIs(c.incr, mss, c.cwnd, c.incr - c.cwnd * mss);
  }
}
