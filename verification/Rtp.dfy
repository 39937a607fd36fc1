/**
 One RTP track of one RTSP client: packetising HEVC and PCM (nexxt/rtsp.py:30-112; section 5.1 of RFC 3550,
 section 4.5.11 of RFC 3551, section 4.4.3 of RFC 7798), and video chunks in Annex-B form (nexxt/media.py:36-63).
 */
module Rtp {
  import opened Bytes
  import opened Serial
  import opened Hevc

  const M16 := 0x1_0000

  // ---------------------------------------------------------------- video chunks

  datatype VideoChunk = VideoChunk(data: Bytes, timestampNs: int)

  predicate StartsWith(data: Bytes, prefix: Bytes) { |prefix| <= |data| && data[..|prefix|] == prefix }

  function TypeOffset(data: Bytes): nat { if StartsWith(data, START_CODE) then 4 else 0 }

  /** A chunk whose type can be read; the source raises an IndexError on any other. */
  predicate HasType(chunk: VideoChunk) { |chunk.data| > TypeOffset(chunk.data) }

  function NalType(chunk: VideoChunk): (t: int)
    requires HasType(chunk)
    ensures 0 <= t < 64
  {
    NalTypeOf(chunk.data[TypeOffset(chunk.data)])
  }

  function Payload(chunk: VideoChunk): Bytes {
    if StartsWith(chunk.data, START_CODE) then chunk.data[4..]
    else if StartsWith(chunk.data, SHORT_START_CODE) then chunk.data[3..]
    else chunk.data
  }

  predicate IsParameterSet(chunk: VideoChunk)
    requires HasType(chunk)
  {
    NalType(chunk) == 32 || NalType(chunk) == 33 || NalType(chunk) == 34
  }

  predicate IsIrap(chunk: VideoChunk)
    requires HasType(chunk)
  {
    16 <= NalType(chunk) <= 23
  }

  /**
   The type a chunk reports is that of its payload exactly when the chunk does not open with a three-byte start code,
   which `payload` strips and `nal_type` reads as part of the NAL, or the payload's type is 0 anyway.
   */
  lemma TypeIsPayloadType(chunk: VideoChunk)
    requires HasType(chunk) && Payload(chunk) != []
    ensures NalType(chunk) == NalTypeOf(Payload(chunk)[0])
            <==> !StartsWith(chunk.data, SHORT_START_CODE) || NalTypeOf(Payload(chunk)[0]) == 0
  {
    if StartsWith(chunk.data, SHORT_START_CODE) {
      assert chunk.data[0] == chunk.data[..3][0];
      OneStartCode(chunk.data);
    }
  }

  lemma OneStartCode(data: Bytes)
    ensures !(StartsWith(data, SHORT_START_CODE) && StartsWith(data, START_CODE))
  {
    if |data| >= 4 {
      assert data[..3][2] == data[2] == data[..4][2];
    }
  }

  /**
   By the first byte of its NAL, a chunk with a four-byte start code is a random access point from 32 to 47, and a
   parameter set from 64 to 69, whatever the top bit says.
   */
  lemma TypesByByte(nal: Bytes, ns: int)
    requires nal != []
    ensures var chunk := VideoChunk([0, 0, 0, 1] + nal, ns);
            && HasType(chunk) && Payload(chunk) == nal
            && (IsIrap(chunk) <==> 32 <= nal[0] % 128 < 48) && (IsParameterSet(chunk) <==> 64 <= nal[0] % 128 < 70)
  {
    var data := [0, 0, 0, 1] + nal;
    assert data[..4] == START_CODE && data[4..] == nal && data[4] == nal[0];
  }

  /** What is sent of a chunk: its bytes behind a start code of four or of three bytes, or all of them. */
  lemma PayloadIs(nal: Bytes, ns: int)
    ensures Payload(VideoChunk([0, 0, 0, 1] + nal, ns)) == nal
    ensures Payload(VideoChunk([0, 0, 1] + nal, ns)) == nal
    ensures !(nal[..Min(3, |nal|)] == [0, 0, 1]) && !(nal[..Min(4, |nal|)] == [0, 0, 0, 1]) ==>
              Payload(VideoChunk(nal, ns)) == nal
  {
    var long, short := [0, 0, 0, 1] + nal, [0, 0, 1] + nal;
    assert long[..4] == START_CODE && long[4..] == nal;
    assert short[..3] == SHORT_START_CODE && short[3..] == nal && short[2] == 1;
    OneStartCode(short);
  }

  /** A key frame behind a three-byte start code does not look like one. */
  lemma ShortStartCodeHidesIrap()
    ensures var chunk := VideoChunk(SHORT_START_CODE + [38, 1], 0);
            HasType(chunk) && !IsIrap(chunk) && NalTypeOf(Payload(chunk)[0]) == 19
  {
    var chunk := VideoChunk(SHORT_START_CODE + [38, 1], 0);
    OneStartCode(chunk.data);
  }

  // ---------------------------------------------------------------- packets

  datatype Packet = Packet(marker: bool, payloadType: int, sequence: int, timestamp: int, ssrc: int, payload: Bytes)

  predicate PacketOk(p: Packet) {
    0 <= p.payloadType < 128 && 0 <= p.sequence < M16 && 0 <= p.timestamp < M32 && 0 <= p.ssrc < M32
  }

  function Encode(p: Packet): Bytes
    requires PacketOk(p)
  {
    [0x80, p.payloadType + if p.marker then 0x80 else 0]
    + Be(2, p.sequence) + Be(4, p.timestamp) + Be(4, p.ssrc) + p.payload
  }

  predicate AllOk(ps: seq<Packet>) { forall p <- ps :: PacketOk(p) }

  function EncodeAll(ps: seq<Packet>): (bs: seq<Bytes>)
    requires AllOk(ps)
    ensures |bs| == |ps| && forall i :: 0 <= i < |ps| ==> bs[i] == Encode(ps[i])
  {
    seq(|ps|, i requires 0 <= i < |ps| => Encode(ps[i]))
  }

  lemma EncodeSnoc(ps: seq<Packet>, i: nat)
    requires AllOk(ps) && i < |ps|
    ensures EncodeAll(ps[..i + 1]) == EncodeAll(ps[..i]) + [Encode(ps[i])]
  {
  }

  /** What a receiver reads back from a packet without CSRCs, extension or padding. */
  function Decode(b: Bytes): Option<Packet> {
    if |b| < 12 || b[0] != 0x80 then None
    else Some(Packet(b[1] >= 0x80, b[1] % 0x80, FromBe(b[2..4]), FromBe(b[4..8]), FromBe(b[8..12]), b[12..]))
  }

  lemma PacketRoundTrip(p: Packet)
    requires PacketOk(p)
    ensures Decode(Encode(p)) == Some(p)
  {
    Pow256Values();
    BeRoundTrip(2, p.sequence);
    BeRoundTrip(4, p.timestamp);
    BeRoundTrip(4, p.ssrc);
    var b := Encode(p);
    assert b[2..4] == Be(2, p.sequence);
    assert b[4..8] == Be(4, p.timestamp);
    assert b[8..12] == Be(4, p.ssrc);
    assert b[12..] == p.payload;
  }

  // ---------------------------------------------------------------- the track

  datatype Track = Track(payloadType: int, clockRate: int, sequence: int, ssrc: int,
                         baseNs: Option<int>, baseTimestamp: int, audioTimestamp: int)

  predicate TrackOk(t: Track) {
    0 <= t.payloadType < 128 && 0 <= t.sequence < M16 && 0 <= t.ssrc < M32 && 0 <= t.audioTimestamp < M32
  }

  function BaseOf(t: Track, ns: int): int { if t.baseNs.Some? then t.baseNs.value else ns }

  function Stamp(t: Track, ns: int): int {
    (t.baseTimestamp + (ns - BaseOf(t, ns)) * t.clockRate / 1_000_000_000) % M32
  }

  /** A byte string cut into pieces of the given size. */
  function Parts(body: Bytes, size: int): (ps: seq<Bytes>)
    requires size > 0
    decreases |body|
  {
    if body == [] then []
    else if |body| <= size then [body]
    else [body[..size]] + Parts(body[size..], size)
  }

  lemma {:induction false} PartsJoin(body: Bytes, size: int)
    requires size > 0
    ensures Flatten(Parts(body, size)) == body
    decreases |body|
  {
    if |body| > size {
      var first, rest := body[..size], Parts(body[size..], size);
      PartsJoin(body[size..], size);
      assert ([first] + rest)[1..] == rest;
      assert first + body[size..] == body;
    } else if body != [] {
      assert Flatten([body]) == body + Flatten([]);
    }
  }

  lemma {:induction false} PartsFit(body: Bytes, size: int)
    requires size > 0
    ensures forall p <- Parts(body, size) :: 0 < |p| <= size
    decreases |body|
  {
    if |body| > size {
      PartsFit(body[size..], size);
    }
  }

  lemma PartsCount(body: Bytes, size: int)
    requires size > 0
    ensures |body| > size <==> |Parts(body, size)| > 1
  {
    if |body| > size {
      assert body[size..] != [];
    }
  }

  function PartsFrom(data: Bytes, at: nat, size: int): seq<Bytes>
    requires size > 0
  {
    if at < |data| then Parts(data[at..], size) else []
  }

  lemma Regroup(a: seq<Bytes>, x: Bytes, b: seq<Bytes>)
    ensures a + ([x] + b) == a + [x] + b
  {
  }

  lemma PartsStep(data: Bytes, at: nat, size: int)
    requires size > 0 && at < |data|
    ensures PartsFrom(data, at, size) == [data[at..Min(at + size, |data|)]] + PartsFrom(data, at + size, size)
  {
    if at + size < |data| {
      assert data[at..][..size] == data[at..at + size] && data[at..][size..] == data[at + size..];
    } else {
      assert data[at..|data|] == data[at..];
    }
  }

  /** Piece i of n, as a fragmentation unit. */
  function FuPayload(nal: Bytes, part: Bytes, i: nat, n: nat): Bytes
    requires |nal| >= 2 && i < n
  {
    [Retyped(nal[0], FU_TYPE), nal[1],
     NalTypeOf(nal[0]) + (if i == 0 then 0x80 else 0) + (if i == n - 1 then 0x40 else 0)] + part
  }

  function FuPayloads(nal: Bytes, parts: seq<Bytes>): (ps: seq<Bytes>)
    requires |nal| >= 2 && |parts| > 1
    ensures |ps| == |parts| && forall i :: 0 <= i < |parts| ==> ps[i] == FuPayload(nal, parts[i], i, |parts|)
  {
    seq(|parts|, i requires 0 <= i < |parts| => FuPayload(nal, parts[i], i, |parts|))
  }

  /** The payloads that carry one NAL. */
  function NalPayloads(nal: Bytes, mtu: int): seq<Bytes>
    requires mtu >= 4
  {
    if |nal| < 2 then []
    else if |nal| <= mtu then [nal]
    else
      PartsCount(nal[2..], mtu - 3);
      FuPayloads(nal, Parts(nal[2..], mtu - 3))
  }

  /** Consecutive packets of one timestamp; only the last may carry the marker. */
  function Numbered(t: Track, payloads: seq<Bytes>, timestamp: int, marker: bool): (ps: seq<Packet>)
    ensures |ps| == |payloads|
  {
    seq(|payloads|, i requires 0 <= i < |payloads| =>
      Packet(marker && i == |payloads| - 1, t.payloadType, (t.sequence + i) % M16, timestamp, t.ssrc, payloads[i]))
  }

  function HevcPackets(t: Track, chunk: VideoChunk, mtu: int): (Track, seq<Packet>)
    requires mtu >= 4 && HasType(chunk)
  {
    var payloads := NalPayloads(Payload(chunk), mtu);
    if payloads == [] then (t, [])
    else
      var t1 := t.(baseNs := Some(BaseOf(t, chunk.timestampNs)));
      (t1.(sequence := (t.sequence + |payloads|) % M16),
       Numbered(t1, payloads, Stamp(t, chunk.timestampNs), NalType(chunk) < 32))
  }

  /** The packet of a NAL that fits one. */
  lemma HevcSingle(t: Track, chunk: VideoChunk, mtu: int)
    requires mtu >= 4 && HasType(chunk) && 2 <= |Payload(chunk)| <= mtu
    ensures var t1 := t.(baseNs := Some(BaseOf(t, chunk.timestampNs)));
            HevcPackets(t, chunk, mtu)
            == (t1.(sequence := (t.sequence + 1) % M16),
                Numbered(t1, [Payload(chunk)], Stamp(t, chunk.timestampNs), NalType(chunk) < 32))
  {
  }

  /** The packets of a NAL too long for one. */
  lemma HevcFragments(t: Track, chunk: VideoChunk, mtu: int)
    requires mtu >= 4 && HasType(chunk) && |Payload(chunk)| > mtu
    ensures var nal := Payload(chunk);
            var parts := PartsFrom(nal, 2, mtu - 3);
            var t1 := t.(baseNs := Some(BaseOf(t, chunk.timestampNs)));
            && |parts| > 1
            && HevcPackets(t, chunk, mtu)
               == (t1.(sequence := (t.sequence + |parts|) % M16),
                   Numbered(t1, FuPayloads(nal, parts), Stamp(t, chunk.timestampNs), NalType(chunk) < 32))
  {
    PartsCount(Payload(chunk)[2..], mtu - 3);
  }

  lemma HevcPacketsOk(t: Track, chunk: VideoChunk, mtu: int)
    requires TrackOk(t) && mtu >= 4 && HasType(chunk)
    ensures var (t', ps) := HevcPackets(t, chunk, mtu); TrackOk(t') && AllOk(ps)
  {
  }

  function Even(data: Bytes): Bytes { data[..|data| / 2 * 2] }

  /** Every pair of bytes the other way round. */
  function SwapPairs(data: Bytes): (r: Bytes)
    requires |data| % 2 == 0
    ensures |r| == |data|
  {
    seq(|data|, i requires 0 <= i < |data| => if i % 2 == 0 then data[i + 1] else data[i - 1])
  }

  /** Each little-endian sample becomes the big-endian sample of the same value. */
  lemma SwapKeepsSamples(data: Bytes, k: nat)
    requires |data| % 2 == 0 && 2 * k + 2 <= |data|
    ensures FromBe(SwapPairs(data)[2 * k..2 * k + 2]) == FromLe(data[2 * k..2 * k + 2])
  {
    var a, b := data[2 * k], data[2 * k + 1];
    assert SwapPairs(data)[2 * k..2 * k + 2] == [b, a];
    assert data[2 * k..2 * k + 2] == [a, b];
    ReversePair(a, b);
  }

  lemma ReversePair(a: byte, b: byte)
    ensures Reverse([b, a]) == [a, b]
  {
    ReverseAppend([b], [a]);
    assert [b] + [a] == [b, a];
    assert Reverse([a]) == [a] && Reverse([b]) == [b];
  }

  /** Audio packets: every payload is stamped with the samples sent before it. */
  function PcmPackets(t: Track, payloads: seq<Bytes>): (Track, seq<Packet>)
    decreases |payloads|
  {
    if payloads == [] then (t, [])
    else
      var p := payloads[0];
      var (t', rest) := PcmPackets(AfterPcm(t, p), payloads[1..]);
      (t', [Packet(false, t.payloadType, t.sequence, t.audioTimestamp, t.ssrc, p)] + rest)
  }

  function PcmAll(t: Track, data: Bytes, mtu: int): (Track, seq<Packet>)
    requires mtu >= 2
  {
    PcmPackets(t, Parts(SwapPairs(Even(data)), mtu / 2 * 2))
  }

  lemma {:induction false} PcmPacketsOk(t: Track, payloads: seq<Bytes>)
    requires TrackOk(t)
    ensures var (t', ps) := PcmPackets(t, payloads); TrackOk(t') && AllOk(ps) && |ps| == |payloads|
    decreases |payloads|
  {
    if payloads != [] {
      PcmPacketsOk(AfterPcm(t, payloads[0]), payloads[1..]);
    }
  }

  function AfterPcm(t: Track, payload: Bytes): Track {
    t.(sequence := (t.sequence + 1) % M16, audioTimestamp := (t.audioTimestamp + |payload| / 2) % M32)
  }

  lemma PcmStep(t: Track, parts: seq<Bytes>, i: nat, t1: Track, ps: seq<Packet>)
    requires i < |parts| == |ps| && PcmPackets(t, parts[i..]) == (t1, ps[i..])
    ensures ps[i] == Packet(false, t.payloadType, t.sequence, t.audioTimestamp, t.ssrc, parts[i])
    ensures PcmPackets(AfterPcm(t, parts[i]), parts[i + 1..]) == (t1, ps[i + 1..])
  {
    assert parts[i..][1..] == parts[i + 1..] && ps[i..][1..] == ps[i + 1..] && ps[i..][0] == ps[i];
  }

  lemma NextSequence(sequence: int, k: nat)
    ensures ((sequence + k) % M16 + 1) % M16 == (sequence + k + 1) % M16
  {
  }

  /** _RtpTrack as it is written. */
  class RtpTrack {
    var payloadType: int
    var clockRate: int
    var sequence: int
    var ssrc: int
    var baseNs: Option<int>
    var baseTimestamp: int
    var audioTimestamp: int

    ghost function State(): Track
      reads this
    {
      Track(payloadType, clockRate, sequence, ssrc, baseNs, baseTimestamp, audioTimestamp)
    }

    ghost predicate Valid()
      reads this
    {
      TrackOk(State())
    }

    /** The random choices are arguments. */
    constructor (payloadType: int, clockRate: int, sequence: int, ssrc: int, baseTimestamp: int)
      requires 0 <= payloadType < 128 && 0 <= sequence < M16 && 1 <= ssrc < M32 && 0 <= baseTimestamp < M32
      ensures Valid()
      ensures State() == Track(payloadType, clockRate, sequence, ssrc, None, baseTimestamp, baseTimestamp)
    {
      this.payloadType, this.clockRate := payloadType, clockRate;
      this.sequence, this.ssrc := sequence, ssrc;
      baseNs := None;
      this.baseTimestamp, audioTimestamp := baseTimestamp, baseTimestamp;
    }

    method Timestamp(ns: int) returns (timestamp: int)
      modifies `baseNs
      ensures timestamp == Stamp(old(State()), ns) && 0 <= timestamp < M32
      ensures baseNs == Some(BaseOf(old(State()), ns))
    {
      if baseNs.None? {
        baseNs := Some(ns);
      }
      timestamp := (baseTimestamp + (ns - baseNs.value) * clockRate / 1_000_000_000) % M32;
    }

    method Emit(payload: Bytes, timestamp: int, marker: bool) returns (packet: Bytes)
      requires Valid() && 0 <= timestamp < M32
      modifies `sequence
      ensures Valid()
      ensures packet == Encode(Packet(marker, payloadType, old(sequence), timestamp, ssrc, payload))
      ensures sequence == (old(sequence) + 1) % M16
    {
      packet := Encode(Packet(marker, payloadType, sequence, timestamp, ssrc, payload));
      sequence := (sequence + 1) % M16;
    }

    method Hevc(chunk: VideoChunk, mtu: int) returns (packets: seq<Bytes>)
      requires Valid() && HasType(chunk) && mtu >= 4
      modifies `baseNs, `sequence
      ensures Valid()
      ensures var (t, ps) := HevcPackets(old(State()), chunk, mtu);
              State() == t && AllOk(ps) && packets == EncodeAll(ps)
    {
      ghost var t := State();
      HevcPacketsOk(t, chunk, mtu);
      var nal := Payload(chunk);
      if |nal| < 2 {
        return [];
      }
      var timestamp := Timestamp(chunk.timestampNs);
      var marker := NalType(chunk) < 32;
      ghost var t1 := State();
      if |nal| <= mtu {
        HevcSingle(t, chunk, mtu);
        packets := EmitWhole(nal, timestamp, marker);
      } else {
        HevcFragments(t, chunk, mtu);
        var parts := Split(nal, 2, mtu - 3);
        packets := EmitParts(nal, parts, timestamp, marker);
      }
      assert State() == t1.(sequence := sequence);
    }

    method EmitWhole(nal: Bytes, timestamp: int, marker: bool) returns (packets: seq<Bytes>)
      requires Valid() && 0 <= timestamp < M32
      modifies `sequence
      ensures Valid() && sequence == (old(sequence) + 1) % M16
      ensures var ps := Numbered(old(State()), [nal], timestamp, marker);
              AllOk(ps) && packets == EncodeAll(ps)
    {
      ghost var ps := Numbered(State(), [nal], timestamp, marker);
      var packet := Emit(nal, timestamp, marker);
      packets := [packet];
      assert ps[0].sequence == old(sequence) && packets[0] == Encode(ps[0]);
    }

    /** The slices of a byte string from a position on. */
    method Split(data: Bytes, at: nat, size: int) returns (parts: seq<Bytes>)
      requires size > 0
      ensures parts == PartsFrom(data, at, size)
    {
      parts := [];
      var pos := at;
      while pos < |data|
        invariant at <= pos
        invariant parts + PartsFrom(data, pos, size) == PartsFrom(data, at, size)
      {
        PartsStep(data, pos, size);
        Regroup(parts, data[pos..Min(pos + size, |data|)], PartsFrom(data, pos + size, size));
        parts := parts + [data[pos..Min(pos + size, |data|)]];
        pos := pos + size;
      }
    }

    method EmitParts(nal: Bytes, parts: seq<Bytes>, timestamp: int, marker: bool) returns (packets: seq<Bytes>)
      requires Valid() && |nal| >= 2 && |parts| > 1 && 0 <= timestamp < M32
      modifies `sequence
      ensures Valid() && sequence == (old(sequence) + |parts|) % M16
      ensures var ps := Numbered(old(State()), FuPayloads(nal, parts), timestamp, marker);
              AllOk(ps) && packets == EncodeAll(ps)
    {
      ghost var t := State();
      ghost var ps := Numbered(t, FuPayloads(nal, parts), timestamp, marker);
      var kind := NalTypeOf(nal[0]);
      var indicator: Bytes := [Retyped(nal[0], FU_TYPE), nal[1]];
      packets := [];
      for index := 0 to |parts|
        invariant AllOk(ps[..index]) && packets == EncodeAll(ps[..index])
        invariant sequence == (t.sequence + index) % M16
      {
        assert ps[index].sequence == sequence;
        EncodeSnoc(ps, index);
        var fuHeader: byte :=
          kind + (if index == 0 then 0x80 else 0) + (if index == |parts| - 1 then 0x40 else 0);
        assert indicator + [fuHeader] + parts[index] == FuPayload(nal, parts[index], index, |parts|);
        var packet := Emit(indicator + [fuHeader] + parts[index], timestamp, marker && index == |parts| - 1);
        packets := packets + [packet];
        NextSequence(t.sequence, index);
      }
      assert ps[..|parts|] == ps;
    }

    method Pcm(data: Bytes, mtu: int) returns (packets: seq<Bytes>)
      requires Valid() && mtu >= 2
      modifies `sequence, `audioTimestamp
      ensures Valid()
      ensures var (t, ps) := PcmAll(old(State()), data, mtu);
              State() == t && AllOk(ps) && packets == EncodeAll(ps)
    {
      var network := SwapPairs(Even(data));
      var parts := Split(network, 0, mtu / 2 * 2);
      assert network[0..] == network;
      packets := EmitSamples(parts);
    }

    method EmitSamples(parts: seq<Bytes>) returns (packets: seq<Bytes>)
      requires Valid()
      modifies `sequence, `audioTimestamp
      ensures Valid()
      ensures var (t, ps) := PcmPackets(old(State()), parts);
              State() == t && AllOk(ps) && packets == EncodeAll(ps)
    {
      PcmPacketsOk(State(), parts);
      ghost var (t1, ps) := PcmPackets(State(), parts);
      assert parts[0..] == parts && ps[0..] == ps;
      packets := [];
      for i := 0 to |parts|
        invariant Valid() && packets == EncodeAll(ps[..i])
        invariant PcmPackets(State(), parts[i..]) == (t1, ps[i..])
      {
        EncodeSnoc(ps, i);
        PcmStep(State(), parts, i, t1, ps);
        ghost var t := State();
        var packet := Emit(parts[i], audioTimestamp, false);
        packets := packets + [packet];
        audioTimestamp := (audioTimestamp + |parts[i]| / 2) % M32;
        assert State() == AfterPcm(t, parts[i]);
      }
      assert ps[..|parts|] == ps;
    }
  }
}
