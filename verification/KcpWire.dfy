/**
 KCP segments as bytes: `_Segment.encode`, the header loop of `input`, and the packing of segments into datagrams
 (tuya_p2p/_kcp_python.py:81-95, 241-265, 451-476).
 */
module KcpWire {
  import opened Bytes
  import opened Serial
  import opened KcpModel

  /** The header fields are what struct.pack can hold. */
  predicate Fits(w: Wire) {
    && 0 <= w.conv < M32
    && 0 <= w.cmd < 0x100
    && 0 <= w.frg < 0x100
    && 0 <= w.wnd < 0x1_0000
    && 0 <= w.ts < M32
    && 0 <= w.sn < M32
    && 0 <= w.una < M32
    && |w.data| < M32
  }

  predicate KnownCommand(cmd: int) {
    cmd == CMD_PUSH || cmd == CMD_ACK || cmd == CMD_WASK || cmd == CMD_WINS
  }

  function Header(w: Wire): (b: Bytes)
    requires Fits(w)
    ensures |b| == OVERHEAD
  {
    Le(4, w.conv) + [w.cmd, w.frg] + Le(2, w.wnd) + Le(4, w.ts) + Le(4, w.sn) + Le(4, w.una) + Le(4, |w.data|)
  }

  function EncodeWire(w: Wire): (b: Bytes)
    requires Fits(w)
    ensures |b| == w.Size()
  {
    Header(w) + w.data
  }

  function Encode(seg: Segment): (b: Bytes)
    requires |seg.data| < M32
  {
    EncodeWire(OnWire(Wrapping, seg))
  }

  predicate AllFit(ws: seq<Wire>) {
    forall i :: 0 <= i < |ws| ==> Fits(ws[i])
  }

  function EncodeAll(ws: seq<Wire>): (b: Bytes)
    requires AllFit(ws)
    ensures |b| == TotalSize(ws)
  {
    if ws == [] then [] else EncodeWire(ws[0]) + EncodeAll(ws[1..])
  }

  // ---------------------------------------------------------------- reading a datagram

  function Field32(p: Bytes, at: nat): int
    requires at + 4 <= |p|
  {
    FromLe(p[at..at + 4])
  }

  /** The header fields at an offset; the data is left empty. */
  function ReadHeader(p: Bytes, at: nat): Wire
    requires at + OVERHEAD <= |p|
  {
    Wire(Field32(p, at), p[at + 4] as int, p[at + 5] as int, FromLe(p[at + 6..at + 8]),
         Field32(p, at + 8), Field32(p, at + 12), Field32(p, at + 16), [])
  }

  /** The segments that `input` gets to process, and the status it returns. */
  datatype Parsed = Parsed(wires: seq<Wire>, status: int)

  function ParseFrom(conv: int, p: Bytes, at: nat): (r: Parsed)
    requires at <= |p|
    decreases |p| - at
  {
    if |p| - at < OVERHEAD then Parsed([], 0)
    else
      var h := ReadHeader(p, at);
      var length := Field32(p, at + 20);
      var body := at + OVERHEAD;
      if h.conv != conv then Parsed([], -1)
      else if |p| - body < length then Parsed([], -2)
      else if !KnownCommand(h.cmd) then Parsed([], -3)
      else
        var rest := ParseFrom(conv, p, body + length);
        Parsed([h.(data := p[body..body + length])] + rest.wires, rest.status)
  }

  function Parse(conv: int, p: Bytes): Parsed {
    if |p| < OVERHEAD then Parsed([], -1) else ParseFrom(conv, p, 0)
  }

  lemma HeaderSlices(pre: Bytes, conv: Bytes, kinds: Bytes, wnd: Bytes, ts: Bytes, sn: Bytes, una: Bytes, length: Bytes,
                     data: Bytes, post: Bytes)
    requires |conv| == |ts| == |sn| == |una| == |length| == 4 && |kinds| == |wnd| == 2
    ensures var p, at := pre + (conv + kinds + wnd + ts + sn + una + length + data) + post, |pre|;
            && |p| >= at + 24
            && p[at..at + 4] == conv && p[at + 4] == kinds[0] && p[at + 5] == kinds[1] && p[at + 6..at + 8] == wnd
            && p[at + 8..at + 12] == ts && p[at + 12..at + 16] == sn && p[at + 16..at + 20] == una
            && p[at + 20..at + 24] == length
  {
  }

  lemma ReadHeaderRoundTrip(w: Wire, pre: Bytes, post: Bytes)
    requires Fits(w)
    ensures ReadHeader(pre + EncodeWire(w) + post, |pre|) == w.(data := [])
    ensures Field32(pre + EncodeWire(w) + post, |pre| + 20) == |w.data|
  {
    Pow256Values();
    HeaderSlices(pre, Le(4, w.conv), [w.cmd, w.frg], Le(2, w.wnd), Le(4, w.ts), Le(4, w.sn), Le(4, w.una),
                 Le(4, |w.data|), w.data, post);
    LeRoundTrip(4, w.conv);
    LeRoundTrip(2, w.wnd);
    LeRoundTrip(4, w.ts);
    LeRoundTrip(4, w.sn);
    LeRoundTrip(4, w.una);
    LeRoundTrip(4, |w.data|);
  }

  /** A whole segment stands at an offset of a datagram. */
  predicate StandsAt(p: Bytes, at: nat, w: Wire) {
    && at + w.Size() <= |p|
    && ReadHeader(p, at) == w.(data := [])
    && Field32(p, at + 20) == |w.data|
    && p[at + OVERHEAD..at + OVERHEAD + |w.data|] == w.data
  }

  /** Segments stand back to back from an offset to the end. */
  predicate StandAll(p: Bytes, at: nat, ws: seq<Wire>)
    decreases |ws|
  {
    if ws == [] then at == |p| else StandsAt(p, at, ws[0]) && StandAll(p, at + ws[0].Size(), ws[1..])
  }

  lemma EncodedStands(p: Bytes, at: nat, w: Wire, post: Bytes)
    requires Fits(w) && at <= |p| && p[at..] == EncodeWire(w) + post
    ensures StandsAt(p, at, w) && p[at + w.Size()..] == post
  {
    var pre := p[..at];
    assert p == pre + EncodeWire(w) + post;
    ReadHeaderRoundTrip(w, pre, post);
    assert p[|pre| + OVERHEAD..|pre| + OVERHEAD + |w.data|] == w.data;
  }

  lemma StandAllStep(p: Bytes, at: nat, ws: seq<Wire>)
    requires ws != [] && StandsAt(p, at, ws[0]) && StandAll(p, at + ws[0].Size(), ws[1..])
    ensures StandAll(p, at, ws)
  {
  }

  lemma EncodedFirst(p: Bytes, at: nat, ws: seq<Wire>) returns (rest: nat)
    requires AllFit(ws) && ws != [] && at <= |p| && p[at..] == EncodeAll(ws)
    ensures rest == at + ws[0].Size() <= |p| && StandsAt(p, at, ws[0])
    ensures AllFit(ws[1..]) && p[rest..] == EncodeAll(ws[1..])
  {
    rest := at + ws[0].Size();
    EncodedStands(p, at, ws[0], EncodeAll(ws[1..]));
  }

  lemma {:induction false} EncodedStandAll(p: Bytes, at: nat, ws: seq<Wire>)
    requires AllFit(ws) && at <= |p| && p[at..] == EncodeAll(ws)
    ensures StandAll(p, at, ws)
    decreases |ws|
  {
    if ws != [] {
      var rest := EncodedFirst(p, at, ws);
      EncodedStandAll(p, rest, ws[1..]);
      StandAllStep(p, at, ws);
    }
  }

  /** One step of the header loop over a segment that stands there. */
  lemma ParseStep(conv: int, p: Bytes, at: nat, w: Wire)
    requires at <= |p| && StandsAt(p, at, w) && w.conv == conv && KnownCommand(w.cmd)
    ensures var rest := ParseFrom(conv, p, at + w.Size());
            ParseFrom(conv, p, at) == Parsed([w] + rest.wires, rest.status)
  {
    assert w == ReadHeader(p, at).(data := w.data);
  }

  lemma {:induction false} ParseStanding(conv: int, p: Bytes, at: nat, ws: seq<Wire>)
    requires at <= |p| && StandAll(p, at, ws)
    requires forall i :: 0 <= i < |ws| ==> ws[i].conv == conv && KnownCommand(ws[i].cmd)
    ensures ParseFrom(conv, p, at) == Parsed(ws, 0)
    decreases |ws|
  {
    if ws != [] {
      ParseStanding(conv, p, at + ws[0].Size(), ws[1..]);
      ParseStep(conv, p, at, ws[0]);
      assert [ws[0]] + ws[1..] == ws;
    } else {
      assert at == |p|;
    }
  }

  /** `input` reads from a datagram exactly the segments that were packed into it. */
  lemma ParseRoundTrip(conv: int, ws: seq<Wire>)
    requires AllFit(ws) && ws != []
    requires forall i :: 0 <= i < |ws| ==> ws[i].conv == conv && KnownCommand(ws[i].cmd)
    ensures Parse(conv, EncodeAll(ws)) == Parsed(ws, 0)
  {
    var p := EncodeAll(ws);
    EncodedStandAll(p, 0, ws);
    ParseStanding(conv, p, 0, ws);
    assert TotalSize(ws) >= ws[0].Size();
  }

  // ---------------------------------------------------------------- which bytes, and which status

  /** Four bytes, least significant first. */
  predicate Low4(b: Bytes, at: nat, v: int) {
    && at + 4 <= |b|
    && b[at] == v % 0x100 && b[at + 1] == v / 0x100 % 0x100
    && b[at + 2] == v / 0x1_0000 % 0x100 && b[at + 3] == v / 0x100_0000
  }

  lemma LeOne(width: nat, v: int)
    requires 0 <= v
    ensures Le(width + 1, v) == [v % 0x100] + Le(width, v / 0x100)
  {
  }

  lemma Le2Bytes(v: int)
    requires 0 <= v < 0x1_0000
    ensures Le(2, v) == [v % 0x100, v / 0x100]
  {
    LeOne(1, v);
    LeOne(0, v / 0x100);
  }

  lemma Le4Bytes(v: int)
    requires 0 <= v < M32
    ensures Low4(Le(4, v), 0, v)
  {
    LeOne(3, v);
    LeOne(2, v / 0x100);
    Le2Bytes(v / 0x1_0000);
    assert v / 0x100 / 0x100 == v / 0x1_0000 && v / 0x1_0000 / 0x100 == v / 0x100_0000;
  }

  /** Where the fields of a segment stand in its bytes. */
  lemma SegmentLayout(w: Wire)
    requires Fits(w)
    ensures var b := EncodeWire(w);
            && |b| == 24 + |w.data| && Low4(b, 0, w.conv) && b[4] == w.cmd && b[5] == w.frg
            && b[6] == w.wnd % 0x100 && b[7] == w.wnd / 0x100
            && Low4(b, 8, w.ts) && Low4(b, 12, w.sn) && Low4(b, 16, w.una) && Low4(b, 20, |w.data|) && b[24..] == w.data
  {
    Le4Bytes(w.conv);
    Le2Bytes(w.wnd);
    Le4Bytes(w.ts);
    Le4Bytes(w.sn);
    Le4Bytes(w.una);
    Le4Bytes(|w.data|);
  }

  /** The protocol's commands: data is 81, an acknowledgement 82, a probe 83 and its answer 84. */
  lemma Commands(cmd: int)
    ensures KnownCommand(cmd) <==> 81 <= cmd <= 84
    ensures CMD_PUSH == 81 && CMD_ACK == 82 && CMD_WASK == 83 && CMD_WINS == 84
  {
  }

  /** Whole segments of this conversation stand back to back between two offsets. */
  predicate StandTo(conv: int, p: Bytes, at: nat, ws: seq<Wire>, end: nat)
    decreases |ws|
  {
    if ws == [] then at == end
    else
      && StandsAt(p, at, ws[0]) && ws[0].conv == conv && KnownCommand(ws[0].cmd)
      && StandTo(conv, p, at + ws[0].Size(), ws[1..], end)
  }

  /** What is wrong, if anything, with the bytes at an offset. */
  predicate Stops(conv: int, p: Bytes, at: nat, status: int) {
    && at <= |p|
    && (status == 0 <==> |p| - at < 24)
    && (status == -1 <==> |p| - at >= 24 && Field32(p, at) != conv)
    && (status == -2 <==> |p| - at >= 24 && Field32(p, at) == conv && Field32(p, at + 20) > |p| - at - 24)
    && (status == -3 <==> |p| - at >= 24 && Field32(p, at) == conv && Field32(p, at + 20) <= |p| - at - 24
                          && !(81 <= p[at + 4] <= 84))
  }

  lemma {:induction false} ParseStops(conv: int, p: Bytes, at: nat) returns (end: nat)
    requires at <= |p|
    ensures var r := ParseFrom(conv, p, at); StandTo(conv, p, at, r.wires, end) && Stops(conv, p, end, r.status)
    decreases |p| - at
  {
    end := at;
    if Whole(conv, p, at) {
      var w := ParseOne(conv, p, at);
      end := ParseStops(conv, p, at + w.Size());
      StandOn(conv, p, at, w, ParseFrom(conv, p, at + w.Size()).wires, end);
    }
  }

  /** A whole segment of this conversation and of a known command stands there. */
  predicate Whole(conv: int, p: Bytes, at: nat) {
    && at + OVERHEAD <= |p| && Field32(p, at) == conv && Field32(p, at + 20) <= |p| - at - OVERHEAD
    && KnownCommand(p[at + 4])
  }

  lemma ParseOne(conv: int, p: Bytes, at: nat) returns (w: Wire)
    requires Whole(conv, p, at)
    ensures StandsAt(p, at, w) && w.conv == conv && KnownCommand(w.cmd)
    ensures var rest := ParseFrom(conv, p, at + w.Size());
            ParseFrom(conv, p, at) == Parsed([w] + rest.wires, rest.status)
  {
    var length := Field32(p, at + 20);
    w := ReadHeader(p, at).(data := p[at + OVERHEAD..at + OVERHEAD + length]);
  }

  lemma StandOn(conv: int, p: Bytes, at: nat, w: Wire, ws: seq<Wire>, end: nat)
    requires StandsAt(p, at, w) && w.conv == conv && KnownCommand(w.cmd) && StandTo(conv, p, at + w.Size(), ws, end)
    ensures StandTo(conv, p, at, [w] + ws, end)
  {
    assert ([w] + ws)[1..] == ws;
  }

  /**
   What `input` makes of any bytes: the segments are those that stand at the front, as far as they are whole and of this
   conversation and of a known command, and the status says why it stops there.
   */
  lemma ParseStatus(conv: int, p: Bytes) returns (end: nat)
    ensures |p| < 24 ==> Parse(conv, p) == Parsed([], -1)
    ensures |p| >= 24 ==>
              StandTo(conv, p, 0, Parse(conv, p).wires, end) && Stops(conv, p, end, Parse(conv, p).status)
  {
    end := ParseStops(conv, p, 0);
  }

  // ---------------------------------------------------------------- packing

  lemma Regroup(a: Bytes, b: Bytes, c: Bytes)
    ensures a + (b + c) == a + b + c
  {
  }

  lemma {:induction false} EncodeAppend(a: seq<Wire>, b: seq<Wire>)
    requires AllFit(a) && AllFit(b)
    ensures AllFit(a + b) && EncodeAll(a + b) == EncodeAll(a) + EncodeAll(b)
  {
    if a == [] {
      assert a + b == b;
    } else {
      assert (a + b)[1..] == a[1..] + b;
      EncodeAppend(a[1..], b);
      Regroup(EncodeWire(a[0]), EncodeAll(a[1..]), EncodeAll(b));
    }
  }

  lemma {:induction false} TotalSizeAppend(a: seq<Wire>, b: seq<Wire>)
    ensures TotalSize(a + b) == TotalSize(a) + TotalSize(b)
  {
    if a == [] {
      assert a + b == b;
    } else {
      assert (a + b)[1..] == a[1..] + b;
      TotalSizeAppend(a[1..], b);
    }
  }

  /** All segments of a list of datagrams, in order. */
  function Unpack(ds: seq<seq<Wire>>): seq<Wire> {
    if ds == [] then [] else ds[0] + Unpack(ds[1..])
  }

  lemma {:induction false} UnpackAppend(a: seq<seq<Wire>>, d: seq<Wire>)
    ensures Unpack(a + [d]) == Unpack(a) + d
  {
    if a == [] {
      assert a + [d] == [d];
      assert Unpack([d]) == d + Unpack([]);
    } else {
      assert (a + [d])[1..] == a[1..] + [d];
      UnpackAppend(a[1..], d);
    }
  }

  predicate Datagram(mtu: int, d: seq<Wire>) {
    d != [] && TotalSize(d) <= mtu
  }

  lemma EmitFits(mtu: int, p: Packing, w: Wire)
    requires w.Size() <= mtu
    requires forall d <- p.done :: Datagram(mtu, d)
    requires TotalSize(p.open) <= mtu
    ensures forall d <- Emit(mtu, p, w).done :: Datagram(mtu, d)
    ensures Emit(mtu, p, w).open != [] && TotalSize(Emit(mtu, p, w).open) <= mtu
  {
    assert TotalSize([w]) == w.Size();
    TotalSizeAppend(p.open, [w]);
  }

  lemma EmitKeepsAll(mtu: int, p: Packing, w: Wire)
    ensures Unpack(Close(Emit(mtu, p, w))) == Unpack(Close(p)) + [w]
  {
    UnpackAppend(p.done, p.open);
    UnpackAppend(p.done, p.open + [w]);
    UnpackAppend(p.done, [w]);
    UnpackAppend(p.done + [p.open], [w]);
    assert p.open == [] ==> p.open + [w] == [w];
    assert p.open == [] ==> Unpack(p.done) + p.open == Unpack(p.done);
    assert Unpack(p.done) + p.open + [w] == Unpack(p.done) + (p.open + [w]);
  }

  lemma {:induction false} EmitAllKeepsAll(mtu: int, ws: seq<Wire>)
    ensures Unpack(Close(EmitAll(mtu, Packing([], []), ws))) == ws
    decreases |ws|
  {
    if ws != [] {
      var ws', w := ws[..|ws| - 1], ws[|ws| - 1];
      EmitAllKeepsAll(mtu, ws');
      EmitKeepsAll(mtu, EmitAll(mtu, Packing([], []), ws'), w);
      assert ws == ws' + [w];
    }
  }

  lemma {:induction false} EmitAllFits(mtu: int, ws: seq<Wire>)
    requires mtu >= 0 && forall w <- ws :: w.Size() <= mtu
    ensures var p := EmitAll(mtu, Packing([], []), ws);
            && (forall d <- p.done :: Datagram(mtu, d))
            && TotalSize(p.open) <= mtu
    decreases |ws|
  {
    if ws != [] {
      var ws', w := ws[..|ws| - 1], ws[|ws| - 1];
      EmitAllFits(mtu, ws');
      EmitFits(mtu, EmitAll(mtu, Packing([], []), ws'), w);
    }
  }

  /** Packing splits, drops and reorders nothing. */
  lemma PackKeepsAll(mtu: int, ws: seq<Wire>)
    ensures Unpack(Pack(mtu, ws)) == ws
  {
    EmitAllKeepsAll(mtu, ws);
  }

  /** Every datagram is non-empty and fits the MTU. */
  lemma PackFits(mtu: int, ws: seq<Wire>)
    requires mtu >= 0 && forall w <- ws :: w.Size() <= mtu
    ensures forall d <- Pack(mtu, ws) :: Datagram(mtu, d)
  {
    EmitAllFits(mtu, ws);
  }

  lemma EmitAllSnoc(mtu: int, p: Packing, ws: seq<Wire>, w: Wire)
    ensures EmitAll(mtu, p, ws + [w]) == Emit(mtu, EmitAll(mtu, p, ws), w)
  {
    assert (ws + [w])[..|ws|] == ws;
  }

  lemma {:induction false} InUnpack(ds: seq<seq<Wire>>, d: seq<Wire>, w: Wire)
    requires d in ds && w in d
    ensures w in Unpack(ds)
  {
    if d != ds[0] {
      InUnpack(ds[1..], d, w);
    }
  }
}
