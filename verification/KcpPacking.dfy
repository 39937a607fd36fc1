/**
 What `flush` sends and what `input` reads are the same segments (tuya_p2p/_kcp_python.py:241-265, 451-496, 547-559).
 */
module KcpPacking {
  import opened Bytes
  import opened Serial
  import opened KcpModel
  import opened KcpWire
  import opened KcpSend
  import opened KcpStream

  /** The byte-level form of `input`: the state it leaves and the status it returns. */
  function InputPacket(e: Endpoint, packet: Bytes): (Endpoint, int)
    requires e.Mss() > 0
  {
    var p := Parse(e.conv, packet);
    var e1 := AbsorbAll(Wrapping, e, p.wires);
    if p.status == 0 then (Settle(Wrapping, e1, e.s.una, MarkAll(Wrapping, NoAck, p.wires)), 0) else (e1, p.status)
  }

  /** A datagram's bytes. Segments too long for their length field, which the source cannot pack, never occur. */
  function Raw(d: seq<Wire>): Bytes {
    if AllFit(d) then EncodeAll(d) else []
  }

  /** Segments fit the MTU, and those in the send buffer are data segments of this conversation. */
  predicate Sized(e: Endpoint) {
    && 50 <= e.mtu < M32 && 0 <= e.conv < M32
    && (forall seg <- e.s.queue :: |seg.data| <= e.Mss())
    && (forall seg <- e.s.buf :: |seg.data| <= e.Mss() && seg.cmd == CMD_PUSH && seg.conv == e.conv)
  }

  // ---------------------------------------------------------------- every operation keeps segments sized

  lemma SendKeepsSized(e: Endpoint, data: Bytes)
    requires Sized(e)
    ensures Sized(Send(e, data))
  {
    FragmentsSmall(e.Mss(), data);
    forall seg <- Send(e, data).s.queue
      ensures |seg.data| <= e.Mss()
    {
      var i :| 0 <= i < |Send(e, data).s.queue| && Send(e, data).s.queue[i] == seg;
      if i >= |e.s.queue| {
        assert seg == Unsent(Fragments(e.Mss(), data)[i - |e.s.queue|]);
      } else {
        assert seg in e.s.queue;
      }
    }
  }

  lemma AbsorbSubset(n: Numbering, s: Sender, w: Wire)
    ensures SenderAbsorb(n, s, w).queue == s.queue
    ensures forall seg <- SenderAbsorb(n, s, w).buf :: seg in s.buf
  {
    var s1 := Shrink(ParseUna(n, s, w.una));
    var k := RemoveAckedShape(n, s1.buf, w.sn);
  }

  lemma {:induction false} AbsorbAllKeepsSized(n: Numbering, e: Endpoint, ws: seq<Wire>)
    requires Sized(e)
    ensures Sized(AbsorbAll(n, e, ws))
    decreases |ws|
  {
    if ws != [] {
      AbsorbSubset(n, e.s, ws[0]);
      AbsorbAllKeepsSized(n, Absorb(n, e, ws[0]), ws[1..]);
    }
  }

  lemma SameContentsSized(e: Endpoint, e': Endpoint)
    requires Sized(e) && e'.mtu == e.mtu && e'.conv == e.conv
    requires e'.s.queue == e.s.queue && SameContents(e.s.buf, e'.s.buf)
    ensures Sized(e')
  {
    forall seg <- e'.s.buf
      ensures |seg.data| <= e.Mss() && seg.cmd == CMD_PUSH && seg.conv == e.conv
    {
      var i :| 0 <= i < |e'.s.buf| && e'.s.buf[i] == seg;
      assert e.s.buf[i] in e.s.buf;
      assert e.s.buf[i].Content() == seg.Content();
    }
  }

  lemma SettleKeepsSized(n: Numbering, e: Endpoint, oldUna: int, m: Mark)
    requires Sized(e)
    ensures Sized(Settle(n, e, oldUna, m))
  {
    if m.Newest? {
      CountSkipsSame(n, e.s.buf, m.sn, m.ts);
    }
    SameContentsSized(e, Settle(n, e, oldUna, m));
  }

  lemma InputKeepsSized(n: Numbering, e: Endpoint, ws: seq<Wire>)
    requires Sized(e)
    ensures Sized(Input(n, e, ws))
  {
    AbsorbAllKeepsSized(n, e, ws);
    SettleKeepsSized(n, AbsorbAll(n, e, ws), e.s.una, MarkAll(n, NoAck, ws));
  }

  lemma {:induction false} AdmitKeepsSized(n: Numbering, s: Sender, st: Stamp, window: int, rto: int, mss: int)
    requires forall seg <- s.queue :: |seg.data| <= mss
    requires forall seg <- s.buf :: |seg.data| <= mss && seg.cmd == CMD_PUSH && seg.conv == st.conv
    ensures var s' := Admit(n, s, st, window, rto);
            && (forall seg <- s'.queue :: |seg.data| <= mss)
            && (forall seg <- s'.buf :: |seg.data| <= mss && seg.cmd == CMD_PUSH && seg.conv == st.conv)
    decreases |s.queue|
  {
    if Diff(n, s.nxt, Norm(n, s.una + window)) < 0 && s.queue != [] {
      var seg := Numbered(s.queue[0], st, s.nxt, rto);
      assert s.queue[0] in s.queue;
      AdmitKeepsSized(n, s.(queue := s.queue[1..], nxt := Norm(n, s.nxt + 1), buf := s.buf + [seg]),
                      st, window, rto, mss);
    }
  }

  lemma AdmittedSized(n: Numbering, e: Endpoint)
    requires Sized(e)
    ensures Sized(e.(s := Admitted(n, e)))
  {
    AdmitKeepsSized(n, e.s, StampOf(e), SendWindow(ProbeTimer(e.c)), e.c.rto, e.Mss());
  }

  lemma FlushKeepsSized(n: Numbering, e: Endpoint)
    requires Sized(e)
    ensures Sized(Flushed(n, e))
  {
    AdmittedSized(n, e);
    SameContentsSized(e.(s := Admitted(n, e)), Flushed(n, e));
  }

  // ---------------------------------------------------------------- the datagrams of a flush

  /** A segment on its way that `input` of the same conversation accepts. */
  predicate WireOk(conv: int, w: Wire) {
    && w.conv == conv && KnownCommand(w.cmd)
    && 0 <= w.frg < 0x100 && 0 <= w.wnd < 0x1_0000 && 0 <= w.ts < M32 && |w.data| < M32
  }

  lemma {:induction false} OutgoingSized(e: Endpoint, buf: seq<Segment>)
    requires forall seg <- buf :: |seg.data| <= e.Mss() && seg.cmd == CMD_PUSH && seg.conv == e.conv
    ensures forall seg <- Outgoing(e.c, StampOf(e), buf) ::
      |seg.data| <= e.Mss() && seg.cmd == CMD_PUSH && seg.conv == e.conv
  {
    if buf != [] {
      OutgoingSized(e, buf[1..]);
    }
  }

  /** An emitted segment that packs into a datagram this conversation accepts. */
  predicate EmitOk(e: Endpoint, seg: Segment) {
    |seg.data| <= e.Mss() && KnownCommand(seg.cmd) && seg.conv == e.conv
  }

  lemma EmittedSized(n: Numbering, e: Endpoint)
    requires Sized(e)
    ensures forall seg <- Emitted(n, e) :: EmitOk(e, seg)
  {
    var st := StampOf(e);
    AdmittedSized(n, e);
    OutgoingSized(e, Admitted(n, e).buf);
    forall seg <- AckSegments(st, e.r.acks)
      ensures EmitOk(e, seg)
    {
      var i :| 0 <= i < |e.r.acks| && seg == AckSegment(st, e.r.acks[i]);
    }
  }

  lemma OnWireOk(n: Numbering, e: Endpoint, segs: seq<Segment>)
    requires Sized(e) && forall seg <- segs :: EmitOk(e, seg)
    ensures forall w <- OnWireAll(n, segs) :: WireOk(e.conv, w) && w.Size() <= e.mtu
  {
    forall w <- OnWireAll(n, segs)
      ensures WireOk(e.conv, w) && w.Size() <= e.mtu
    {
      var i :| 0 <= i < |segs| && w == OnWire(n, segs[i]);
      assert EmitOk(e, segs[i]);
    }
  }

  lemma EmittedOk(n: Numbering, e: Endpoint)
    requires Sized(e)
    ensures forall w <- OnWireAll(n, Emitted(n, e)) :: WireOk(e.conv, w) && w.Size() <= e.mtu
  {
    EmittedSized(n, e);
    OnWireOk(n, e, Emitted(n, e));
  }

  /** The datagrams of a flush: each non-empty and within the MTU, together exactly the emitted segments in order. */
  lemma FlushPacks(n: Numbering, e: Endpoint)
    requires Sized(e)
    ensures Unpack(Datagrams(n, e)) == OnWireAll(n, Emitted(n, e))
    ensures forall d <- Datagrams(n, e) :: Datagram(e.mtu, d) && forall w <- d :: WireOk(e.conv, w)
  {
    var ws := OnWireAll(n, Emitted(n, e));
    EmittedOk(n, e);
    PackKeepsAll(e.mtu, ws);
    PackFits(e.mtu, ws);
    forall d, w | d in Datagrams(n, e) && w in d
      ensures WireOk(e.conv, w)
    {
      InUnpack(Datagrams(n, e), d, w);
    }
  }

  /** The next datagram begins with a segment that this one has no room for. */
  predicate NoRoom(mtu: int, d: seq<Wire>, next: seq<Wire>) {
    next != [] && TotalSize(d) + next[0].Size() > mtu
  }

  /** Each datagram is as full as can be before the next one begins. */
  predicate Full(mtu: int, ds: seq<seq<Wire>>) {
    forall i {:trigger ds[i]} :: 0 < i < |ds| ==> NoRoom(mtu, ds[i - 1], ds[i])
  }

  lemma FullSnoc(mtu: int, done: seq<seq<Wire>>, open: seq<Wire>, w: Wire)
    requires Full(mtu, done + [open]) && open != []
    ensures Full(mtu, done + [open + [w]])
    ensures TotalSize(open) + w.Size() > mtu ==> Full(mtu, done + [open] + [[w]])
  {
    var before, longer, more := done + [open], done + [open + [w]], done + [open] + [[w]];
    forall i | 0 < i < |longer|
      ensures NoRoom(mtu, longer[i - 1], longer[i])
    {
      assert NoRoom(mtu, before[i - 1], before[i]);
    }
    forall i | 0 < i < |before|
      ensures NoRoom(mtu, more[i - 1], more[i])
    {
      assert NoRoom(mtu, before[i - 1], before[i]);
    }
  }

  /** No sooner than it must does packing begin a datagram. */
  lemma {:induction false} PackFull(mtu: int, ws: seq<Wire>)
    requires forall w <- ws :: w.Size() <= mtu
    ensures var p := EmitAll(mtu, Packing([], []), ws);
            (p.open == [] ==> p.done == []) && (p.open != [] ==> Full(mtu, p.done + [p.open]))
    decreases |ws|
  {
    if ws != [] {
      var k := |ws| - 1;
      PackFull(mtu, ws[..k]);
      var p := EmitAll(mtu, Packing([], []), ws[..k]);
      if p.open != [] {
        FullSnoc(mtu, p.done, p.open, ws[k]);
      }
    }
  }

  lemma FlushFull(n: Numbering, e: Endpoint)
    requires Sized(e)
    ensures Full(e.mtu, Datagrams(n, e))
  {
    EmittedOk(n, e);
    PackFull(e.mtu, OnWireAll(n, Emitted(n, e)));
  }

  /**
   Flush packing round trip: every datagram `flush` outputs is between 24 and mtu bytes long, `input`'s header loop
   reads it without error, and reading them all in order gives the acknowledgements, then the probes, then the data
   segments, none split, dropped or moved.
   */
  lemma FlushRoundTrip(e: Endpoint)
    requires Sized(e)
    ensures forall d <- Datagrams(Wrapping, e) ::
      && OVERHEAD <= |Raw(d)| <= e.mtu
      && Parse(e.conv, Raw(d)) == Parsed(d, 0)
    ensures Unpack(Datagrams(Wrapping, e)) == OnWireAll(Wrapping, Emitted(Wrapping, e))
  {
    FlushPacks(Wrapping, e);
    forall d <- Datagrams(Wrapping, e)
      ensures OVERHEAD <= |Raw(d)| <= e.mtu && Parse(e.conv, Raw(d)) == Parsed(d, 0)
    {
      forall w <- d
        ensures Fits(w)
      {
        assert WireOk(e.conv, w);
        InUnpack(Datagrams(Wrapping, e), d, w);
        var i :| 0 <= i < |Emitted(Wrapping, e)| && w == OnWire(Wrapping, Emitted(Wrapping, e)[i]);
      }
      RawRoundTrip(e.conv, d);
    }
  }

  lemma RawRoundTrip(conv: int, d: seq<Wire>)
    requires d != [] && forall w <- d :: WireOk(conv, w) && Fits(w)
    ensures AllFit(d) && |Raw(d)| == TotalSize(d) >= OVERHEAD && Parse(conv, Raw(d)) == Parsed(d, 0)
  {
    forall i | 0 <= i < |d|
      ensures Fits(d[i]) && d[i].conv == conv && KnownCommand(d[i].cmd)
    {
      assert d[i] in d;
    }
    ParseRoundTrip(conv, d);
    assert TotalSize(d) >= d[0].Size();
  }
}
