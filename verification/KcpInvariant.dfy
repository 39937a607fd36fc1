/**
 The invariant every public call of the endpoint keeps, whatever bytes arrive: the reorder buffer, the send window, and
 segments that fit the MTU.
 */
module KcpInvariant {
  import opened Bytes
  import opened Serial
  import opened KcpModel
  import opened KcpWire
  import opened KcpReceive
  import opened KcpSend
  import opened KcpSystem
  import opened KcpPacking

  /** How many numbers a sender may have in use: its window, and no more than a peer can advertise. */
  function Widest(c: Control): int { Min(WIDEST, c.sndWnd) }

  ghost predicate EndpointOk(e: Endpoint) {
    Sized(e) && ControlOk(e.c) && RecvOk(Wrapping, e.r) && SendOk(Wrapping, e.s, Widest(e.c))
  }

  lemma {:induction false} AbsorbAllKeepsSndWnd(e: Endpoint, ws: seq<Wire>)
    ensures AbsorbAll(Wrapping, e, ws).c.sndWnd == e.c.sndWnd
    decreases |ws|
  {
    if ws != [] {
      AbsorbAllKeepsSndWnd(Absorb(Wrapping, e, ws[0]), ws[1..]);
    }
  }

  lemma FieldBounds(p: Bytes, at: nat)
    requires at + OVERHEAD <= |p|
    ensures var h := ReadHeader(p, at);
            0 <= h.sn < M32 && 0 <= h.una < M32 && 0 <= h.wnd <= WIDEST
  {
    Pow256Values();
    FromLeBound(p[at + 6..at + 8]);
    FromLeBound(p[at + 12..at + 16]);
    FromLeBound(p[at + 16..at + 20]);
  }

  /** The fields of whatever segments a packet holds are in range. */
  lemma {:induction false} ParsedInRange(conv: int, p: Bytes, at: nat)
    requires at <= |p|
    ensures forall w <- ParseFrom(conv, p, at).wires :: 0 <= w.sn < M32 && 0 <= w.wnd <= WIDEST
    decreases |p| - at
  {
    if |p| - at >= OVERHEAD {
      var length := Field32(p, at + 20);
      FieldBounds(p, at);
      if |p| - (at + OVERHEAD) >= length {
        ParsedInRange(conv, p, at + OVERHEAD + length);
      }
    }
  }

  /** Any packet at all, well-formed or not, keeps the invariant, and never moves una back. */
  lemma InputPacketKeepsOk(e: Endpoint, packet: Bytes)
    requires EndpointOk(e)
    ensures EndpointOk(InputPacket(e, packet).0)
    ensures 0 <= Diff(Wrapping, InputPacket(e, packet).0.s.una, e.s.una)
  {
    var ws := Parse(e.conv, packet).wires;
    if |packet| >= OVERHEAD {
      ParsedInRange(e.conv, packet, 0);
    }
    AbsorbAllKeepsSized(Wrapping, e, ws);
    AbsorbAllControlOk(Wrapping, e, ws);
    AbsorbAllKeepsRecvOk(Wrapping, e, ws);
    AbsorbAllKeepsSndWnd(e, ws);
    AbsorbAllKeepsSendOk(Wrapping, e, Widest(e.c), ws);
    var e1 := AbsorbAll(Wrapping, e, ws);
    SettleKeepsOk(e1, e.s.una, MarkAll(Wrapping, NoAck, ws));
  }

  lemma SettleKeepsOk(e: Endpoint, oldUna: int, m: Mark)
    requires EndpointOk(e)
    ensures EndpointOk(Settle(Wrapping, e, oldUna, m)) && Settle(Wrapping, e, oldUna, m).s.una == e.s.una
  {
    SettleKeepsSized(Wrapping, e, oldUna, m);
    GrowOk(e.c, e.Mss());
    if m.Newest? {
      CountSkipsSame(Wrapping, e.s.buf, m.sn, m.ts);
      SameContentsKeeps(Wrapping, e.s, Widest(e.c), CountSkips(Wrapping, e.s.buf, m.sn, m.ts));
    }
  }

  lemma TuneKeepsOk(e: Endpoint, nodelay: int, interval: int, resend: int, nc: int)
    requires EndpointOk(e)
    ensures EndpointOk(e.(c := SetNodelay(e.c, nodelay, interval, resend, nc)))
  {
  }

  lemma TickKeepsOk(e: Endpoint, now: int)
    requires EndpointOk(e)
    ensures EndpointOk(e.(c := Tick(e.c, now).0))
  {
  }

  lemma SendKeepsOk(e: Endpoint, data: Bytes)
    requires EndpointOk(e)
    ensures EndpointOk(Send(e, data))
  {
    SendKeepsSized(e, data);
  }

  lemma FlushKeepsSndWnd(e: Endpoint)
    ensures Flushed(Wrapping, e).c.sndWnd == e.c.sndWnd
  {
  }

  lemma FlushKeepsOk(e: Endpoint)
    requires EndpointOk(e)
    ensures EndpointOk(Flushed(Wrapping, e)) && Flushed(Wrapping, e).s.una == e.s.una
  {
    FlushKeepsSized(Wrapping, e);
    FlushControlOk(Wrapping, e);
    FlushKeepsSendOk(Wrapping, e, Widest(e.c));
    FlushKeepsSndWnd(e);
    assert Flushed(Wrapping, e).r == e.r.(acks := []);
  }

  // ---------------------------------------------------------------- datagrams being filled

  function RawAll(ds: seq<seq<Wire>>): (r: seq<Bytes>)
    ensures |r| == |ds| && forall i :: 0 <= i < |ds| ==> r[i] == Raw(ds[i])
  {
    seq(|ds|, i requires 0 <= i < |ds| => Raw(ds[i]))
  }

  function PackingOf(mtu: int, out: seq<Segment>): Packing {
    EmitAll(mtu, Packing([], []), OnWireAll(Wrapping, out))
  }

  predicate PackingFits(p: Packing) {
    AllFit(p.open) && forall d <- p.done :: AllFit(d)
  }

  /** The bytes collected so far are those of the segments emitted so far. */
  predicate Packed(mtu: int, packets: seq<Bytes>, buf: Bytes, out: seq<Segment>) {
    var p := PackingOf(mtu, out);
    PackingFits(p) && packets == RawAll(p.done) && buf == Raw(p.open)
  }

  lemma PackedStart(mtu: int)
    ensures Packed(mtu, [], [], [])
  {
  }

  lemma OnWireFits(seg: Segment)
    requires |seg.data| < M32
    ensures Fits(OnWire(Wrapping, seg))
  {
  }

  /** One more segment: where `emit` puts its bytes. */
  lemma PackedStep(mtu: int, packets: seq<Bytes>, buf: Bytes, out: seq<Segment>, seg: Segment)
    requires Packed(mtu, packets, buf, out) && |seg.data| < M32
    ensures var full := |buf| + |Encode(seg)| > mtu;
            Packed(mtu,
                   if full && buf != [] then packets + [buf] else packets,
                   if full then Encode(seg) else buf + Encode(seg),
                   out + [seg])
  {
    var p, w := PackingOf(mtu, out), OnWire(Wrapping, seg);
    assert OnWireAll(Wrapping, out + [seg]) == OnWireAll(Wrapping, out) + [w];
    EmitAllSnoc(mtu, Packing([], []), OnWireAll(Wrapping, out), w);
    OnWireFits(seg);
    EncodeOne(w);
    EncodeAppend(p.open, [w]);
    assert RawAll(p.done + [p.open]) == RawAll(p.done) + [Raw(p.open)];
  }

  lemma EncodeOne(w: Wire)
    requires Fits(w)
    ensures AllFit([w]) && EncodeAll([w]) == EncodeWire(w)
  {
    assert [w][1..] == [];
  }

  /** Closing the last datagram. */
  lemma PackedEnd(mtu: int, packets: seq<Bytes>, buf: Bytes, out: seq<Segment>)
    requires Packed(mtu, packets, buf, out)
    ensures (if buf != [] then packets + [buf] else packets) == RawAll(Pack(mtu, OnWireAll(Wrapping, out)))
  {
    var p := PackingOf(mtu, out);
    assert RawAll(p.done + [p.open]) == RawAll(p.done) + [Raw(p.open)];
    if p.open != [] {
      assert TotalSize(p.open) >= p.open[0].Size();
    }
  }
}
