/** The packetiser and the assembler are inverses. */
module HevcStream {
  // What `_RtpTrack.hevc` sends (nexxt/rtsp.py:71-96), `HevcAssembler.feed` puts back together
  // (nexxt/media.py:118-176; section 4.4.3 of RFC 7798).

  import opened Bytes
  import opened Serial
  import opened Hevc
  import opened Rtp

  /**
   What the packetiser carries faithfully: anything but a NAL that already has the fragmentation type and fits one
   packet, which goes out unwrapped.
   */
  predicate Carried(nal: Bytes, mtu: int) {
    |nal| >= 2 && NalTypeOf(nal[0]) == FU_TYPE ==> |nal| > mtu
  }

  /** The assembler in the middle of a fragmented NAL. */
  function Midway(a: Assembly, nal: Bytes, body: Bytes): Assembly
    requires |nal| >= 2
  {
    Assembly(Some(Unfinished(NalTypeOf(nal[0]), nal[..2] + body)), a.complete, a.reassembled,
             a.anomalies + if a.fu.Some? then 1 else 0)
  }

  /** A packet that is one piece of a fragmented NAL. */
  predicate IsPiece(p: Bytes, nal: Bytes, part: Bytes, first: bool, last: bool)
    requires |nal| >= 2
  {
    && WellFormed(p) && p[3..] == part && FuType(p) == NalTypeOf(nal[0])
    && (IsStart(p) <==> first) && (IsEnd(p) <==> last)
    && Rebuilt(p) == nal[..2]
  }

  lemma FuPayloadIsPiece(nal: Bytes, part: Bytes, i: nat, n: nat)
    requires |nal| >= 2 && i < n
    ensures IsPiece(FuPayload(nal, part, i, n), nal, part, i == 0, i == n - 1)
  {
    RetypedBack(nal[0], FU_TYPE);
    FuHeaderBits(NalTypeOf(nal[0]), i == 0, i == n - 1);
    var p := FuPayload(nal, part, i, n);
    assert p[0] == Retyped(nal[0], FU_TYPE) && p[1] == nal[1];
    assert p[3..] == part;
    assert nal[..2] == [nal[0], nal[1]];
  }

  lemma FuHeaderBits(kind: int, first: bool, last: bool)
    requires 0 <= kind < 64
    ensures var h := kind + (if first then 0x80 else 0) + (if last then 0x40 else 0);
            h % 64 == kind && (h >= 0x80 <==> first) && (h / 0x40 % 2 == 1 <==> last)
  {
  }

  lemma FirstPiece(a: Assembly, nal: Bytes, part: Bytes, p: Bytes)
    requires |nal| >= 2 && IsPiece(p, nal, part, true, false)
    ensures FeedOne(a, p) == (Midway(a, nal, part), [])
  {
  }

  lemma NextPiece(a: Assembly, nal: Bytes, body: Bytes, part: Bytes, p: Bytes)
    requires |nal| >= 2 && IsPiece(p, nal, part, false, false)
    ensures FeedOne(Midway(a, nal, body), p) == (Midway(a, nal, body + part), [])
  {
    assert nal[..2] + body + part == nal[..2] + (body + part);
  }

  lemma LastPiece(a: Assembly, nal: Bytes, body: Bytes, part: Bytes, p: Bytes)
    requires |nal| >= 2 && IsPiece(p, nal, part, false, true)
    ensures FeedOne(Midway(a, nal, body), p) == (Rested(a), [START_CODE + (nal[..2] + (body + part))])
  {
    assert nal[..2] + body + part == nal[..2] + (body + part);
  }

  /** The assembler after a fragmented NAL. */
  function Rested(a: Assembly): Assembly {
    Assembly(None, a.complete, a.reassembled + 1, a.anomalies + if a.fu.Some? then 1 else 0)
  }

  lemma FlattenSnoc(parts: seq<Bytes>, p: Bytes)
    ensures Flatten(parts + [p]) == Flatten(parts) + p
  {
    FlattenAppend(parts, [p]);
    assert [p][1..] == [];
    assert Flatten([p]) == p + [];
  }

  lemma FedSnoc(a: Assembly, before: seq<Bytes>, p: Bytes, a1: Assembly, a2: Assembly, out: seq<Bytes>)
    requires FeedAll(a, before) == (a1, []) && FeedOne(a1, p) == (a2, out)
    ensures FeedAll(a, before + [p]) == (a2, out)
  {
    FeedAllSnoc(a, before, p);
    assert [] + out == out;
  }

  /** Every piece but the last only extends what is held. */
  lemma {:induction false} PiecesHeld(a: Assembly, nal: Bytes, parts: seq<Bytes>, all: seq<Bytes>, i: nat)
    requires |nal| >= 2 && 1 <= i < |parts| == |all|
    requires forall k :: 0 <= k < i ==> IsPiece(all[k], nal, parts[k], k == 0, false)
    ensures FeedAll(a, all[..i]) == (Midway(a, nal, Flatten(parts[..i])), [])
  {
    var body, part, p := Flatten(parts[..i - 1]), parts[i - 1], all[i - 1];
    assert all[..i] == all[..i - 1] + [p];
    assert parts[..i] == parts[..i - 1] + [part];
    FlattenSnoc(parts[..i - 1], part);
    if i == 1 {
      FirstPiece(a, nal, part, p);
      assert body + part == part;
      FedSnoc(a, all[..0], p, a, Midway(a, nal, part), []);
    } else {
      PiecesHeld(a, nal, parts, all, i - 1);
      NextPiece(a, nal, body, part, p);
      FedSnoc(a, all[..i - 1], p, Midway(a, nal, body), Midway(a, nal, body + part), []);
    }
  }

  lemma PiecesDone(a: Assembly, nal: Bytes, parts: seq<Bytes>, all: seq<Bytes>)
    requires |nal| >= 2 && 1 < |parts| == |all|
    requires forall k :: 0 <= k < |all| ==> IsPiece(all[k], nal, parts[k], k == 0, k == |all| - 1)
    ensures FeedAll(a, all) == (Rested(a), [START_CODE + (nal[..2] + Flatten(parts))])
  {
    var n := |all|;
    var body, part, p := Flatten(parts[..n - 1]), parts[n - 1], all[n - 1];
    assert all == all[..n - 1] + [p];
    assert parts == parts[..n - 1] + [part];
    FlattenSnoc(parts[..n - 1], part);
    PiecesHeld(a, nal, parts, all, n - 1);
    LastPiece(a, nal, body, part, p);
    FedSnoc(a, all[..n - 1], p, Midway(a, nal, body), Rested(a), [START_CODE + (nal[..2] + (body + part))]);
  }

  lemma FuDone(a: Assembly, nal: Bytes, parts: seq<Bytes>)
    requires |nal| >= 2 && |parts| > 1
    ensures FeedAll(a, FuPayloads(nal, parts)) == (Rested(a), [START_CODE + (nal[..2] + Flatten(parts))])
  {
    forall k | 0 <= k < |parts|
      ensures IsPiece(FuPayload(nal, parts[k], k, |parts|), nal, parts[k], k == 0, k == |parts| - 1)
    {
      FuPayloadIsPiece(nal, parts[k], k, |parts|);
    }
    PiecesDone(a, nal, parts, FuPayloads(nal, parts));
  }

  lemma FeedSingle(a: Assembly, p: Bytes)
    ensures FeedAll(a, [p]) == FeedOne(a, p)
  {
    FeedAllSnoc(a, [], p);
    assert [] + [p] == [p];
    var out := FeedOne(a, p).1;
    assert [] + out == out;
  }

  /** One NAL goes out and comes back alone, whatever the assembler held before. */
  lemma NalRoundTrip(a: Assembly, nal: Bytes, mtu: int)
    requires mtu >= 4 && |nal| >= 2 && Carried(nal, mtu)
    ensures FeedAll(a, NalPayloads(nal, mtu))
            == (Assembly(None, a.complete + (if |nal| <= mtu then 1 else 0),
                         a.reassembled + (if |nal| <= mtu then 0 else 1),
                         a.anomalies + (if a.fu.Some? then 1 else 0)),
                [START_CODE + nal])
  {
    if |nal| <= mtu {
      ShortNal(a, nal, mtu);
    } else {
      LongNal(a, nal, mtu);
    }
  }

  lemma ShortNal(a: Assembly, nal: Bytes, mtu: int)
    requires mtu >= 4 && 2 <= |nal| <= mtu && Carried(nal, mtu)
    ensures FeedAll(a, NalPayloads(nal, mtu))
            == (Assembly(None, a.complete + 1, a.reassembled, a.anomalies + (if a.fu.Some? then 1 else 0)),
                [START_CODE + nal])
  {
    FeedSingle(a, nal);
  }

  lemma LongNal(a: Assembly, nal: Bytes, mtu: int)
    requires mtu >= 4 && |nal| > mtu
    ensures FeedAll(a, NalPayloads(nal, mtu)) == (Rested(a), [START_CODE + nal])
  {
    var parts := Parts(nal[2..], mtu - 3);
    PartsCount(nal[2..], mtu - 3);
    PartsJoin(nal[2..], mtu - 3);
    FuDone(a, nal, parts);
    assert nal[..2] + nal[2..] == nal;
  }

  /** A lone fragmentation unit is never handed on as it came. */
  lemma ShorterThanItself(a: Assembly, p: Bytes)
    requires IsFu(p) && a.fu.None?
    ensures FeedOne(a, p).1 != [] ==> |FeedOne(a, p).1[0]| == |p| + 3
  {
  }

  /** The condition cannot be weakened: an assembler fresh from its constructor loses any other NAL. */
  lemma LoneFuIsLost(nal: Bytes, mtu: int)
    requires mtu >= 4 && |nal| >= 2 && !Carried(nal, mtu)
    ensures FeedAll(FRESH, NalPayloads(nal, mtu)).1 != [START_CODE + nal]
  {
    FeedSingle(FRESH, nal);
    ShorterThanItself(FRESH, nal);
  }

  lemma RoundTripIff(nal: Bytes, mtu: int)
    requires mtu >= 4 && |nal| >= 2
    ensures (forall a :: FeedAll(a, NalPayloads(nal, mtu)).1 == [START_CODE + nal]) <==> Carried(nal, mtu)
  {
    if Carried(nal, mtu) {
      forall a ensures FeedAll(a, NalPayloads(nal, mtu)).1 == [START_CODE + nal] {
        NalRoundTrip(a, nal, mtu);
      }
    } else {
      LoneFuIsLost(nal, mtu);
    }
  }

  /** No payload is empty or exceeds the MTU, and no fragment is both the first and the last. */
  lemma PayloadsFit(nal: Bytes, mtu: int)
    requires mtu >= 4
    ensures forall p <- NalPayloads(nal, mtu) :: 0 < |p| <= mtu
    ensures |nal| > mtu ==> forall p <- NalPayloads(nal, mtu) :: WellFormed(p) && !(IsStart(p) && IsEnd(p))
  {
    if |nal| > mtu {
      var parts := Parts(nal[2..], mtu - 3);
      PartsCount(nal[2..], mtu - 3);
      PartsFit(nal[2..], mtu - 3);
      forall i | 0 <= i < |parts|
        ensures var p := FuPayload(nal, parts[i], i, |parts|);
                0 < |p| <= mtu && WellFormed(p) && !(IsStart(p) && IsEnd(p))
      {
        assert parts[i] in parts;
        FuPayloadIsPiece(nal, parts[i], i, |parts|);
      }
    }
  }

  // ---------------------------------------------------------------- whole streams

  /** Where piece i of a byte string begins. */
  function From(i: nat, size: int): nat
    requires size > 0
    decreases i
  {
    if i == 0 then 0 else size + From(i - 1, size)
  }

  lemma {:induction false} FromIs(i: nat, size: int)
    requires size > 0
    ensures From(i, size) == i * size
    decreases i
  {
    if i > 0 {
      FromIs(i - 1, size);
    }
  }

  /** The pieces are as few as can be: all but the last are full. */
  lemma {:induction false} PartAt(body: Bytes, size: int, i: nat)
    requires size > 0 && i < |Parts(body, size)|
    ensures From(i, size) < |body|
    ensures Parts(body, size)[i] == body[From(i, size)..Min(From(i, size) + size, |body|)]
    ensures i == |Parts(body, size)| - 1 <==> From(i, size) + size >= |body|
    decreases i
  {
    if i > 0 {
      var rest, from := body[size..], From(i - 1, size);
      PartAt(rest, size, i - 1);
      assert Parts(body, size)[i] == Parts(rest, size)[i - 1];
      assert From(i, size) == size + from;
      RestSlice(body, size, from, Min(from + size, |rest|));
    }
  }

  lemma RestSlice(body: Bytes, size: nat, from: nat, to: nat)
    requires size <= |body| && from <= to <= |body| - size
    ensures body[size..][from..to] == body[size + from..size + to]
  {
  }

  /**
   The bytes of fragment i of a NAL that is too long for one packet (section 4.4.3 of RFC 7798): the header with type
   49, then start bit, end bit and type, and then its piece of what follows the NAL's header.
   */
  lemma FuLayout(nal: Bytes, mtu: int, i: nat)
    requires mtu >= 4 && |nal| > mtu && i < |NalPayloads(nal, mtu)|
    ensures var p, from := NalPayloads(nal, mtu)[i], 2 + i * (mtu - 3);
            var last := from + mtu - 3 >= |nal|;
            && from < |nal| && (last <==> i == |NalPayloads(nal, mtu)| - 1)
            && p == [nal[0] / 128 * 128 + 98 + nal[0] % 2, nal[1],
                     nal[0] / 2 % 64 + (if i == 0 then 128 else 0) + (if last then 64 else 0)]
                    + nal[from..if last then |nal| else from + mtu - 3]
  {
    FromIs(i, mtu - 3);
    FuLayoutFrom(nal, mtu, i, From(i, mtu - 3));
  }

  lemma FuLayoutFrom(nal: Bytes, mtu: int, i: nat, at: nat)
    requires mtu >= 4 && |nal| > mtu && i < |NalPayloads(nal, mtu)| && at == From(i, mtu - 3)
    ensures var p, from := NalPayloads(nal, mtu)[i], 2 + at;
            var last := from + mtu - 3 >= |nal|;
            && from < |nal| && (last <==> i == |NalPayloads(nal, mtu)| - 1)
            && p == [nal[0] / 128 * 128 + 98 + nal[0] % 2, nal[1],
                     nal[0] / 2 % 64 + (if i == 0 then 128 else 0) + (if last then 64 else 0)]
                    + nal[from..if last then |nal| else from + mtu - 3]
  {
    var body, size := nal[2..], mtu - 3;
    PartsCount(body, size);
    PartAt(body, size, i);
    RestSlice(nal, 2, at, Min(at + size, |body|));
    assert NalPayloads(nal, mtu)[i] == FuPayload(nal, Parts(body, size)[i], i, |Parts(body, size)|);
  }

  /** Audio payloads hold whole samples, and all but a call's last are as long as fits. */
  lemma AudioFits(t: Track, data: Bytes, mtu: int, i: nat)
    requires TrackOk(t) && mtu >= 2 && i < |PcmAll(t, data, mtu).1|
    ensures var ps := PcmAll(t, data, mtu).1;
            var p := ps[i].payload;
            && !ps[i].marker && |p| % 2 == 0 && 0 < |p| <= mtu && (i < |ps| - 1 ==> |p| >= mtu - 1)
  {
    var parts := Parts(SwapPairs(Even(data)), mtu / 2 * 2);
    PcmConsecutive(t, parts);
    assert PayloadsOf(PcmAll(t, data, mtu).1) == parts;
    PartsFull(SwapPairs(Even(data)), mtu, i);
    PcmUnmarked(t, parts, i);
  }

  lemma PartsFull(network: Bytes, mtu: int, i: nat)
    requires mtu >= 2 && |network| % 2 == 0 && i < |Parts(network, mtu / 2 * 2)|
    ensures var parts := Parts(network, mtu / 2 * 2);
            |parts[i]| % 2 == 0 && 0 < |parts[i]| <= mtu && (i < |parts| - 1 ==> |parts[i]| >= mtu - 1)
  {
    PartAt(network, mtu / 2 * 2, i);
    PartsEven(network, mtu / 2 * 2);
  }

  lemma {:induction false} PcmUnmarked(t: Track, payloads: seq<Bytes>, i: nat)
    requires TrackOk(t) && i < |PcmPackets(t, payloads).1|
    ensures !PcmPackets(t, payloads).1[i].marker
    decreases |payloads|
  {
    if i > 0 {
      PcmUnmarked(AfterPcm(t, payloads[0]), payloads[1..], i - 1);
    }
  }

  function AllPayloads(nals: seq<Bytes>, mtu: int): seq<Bytes>
    requires mtu >= 4
  {
    if nals == [] then [] else NalPayloads(nals[0], mtu) + AllPayloads(nals[1..], mtu)
  }

  /** What a receiver should see: every NAL behind a start code; the packetiser drops those without a header. */
  function Restored(nals: seq<Bytes>): seq<Bytes> {
    if nals == [] then []
    else (if |nals[0]| >= 2 then [START_CODE + nals[0]] else []) + Restored(nals[1..])
  }

  /** Any sequence of NALs comes back in order, from any starting state. */
  lemma {:induction false} StreamRoundTrip(a: Assembly, nals: seq<Bytes>, mtu: int)
    requires mtu >= 4 && forall n <- nals :: Carried(n, mtu)
    ensures FeedAll(a, AllPayloads(nals, mtu)).1 == Restored(nals)
    decreases |nals|
  {
    if nals != [] {
      var first, rest := NalPayloads(nals[0], mtu), AllPayloads(nals[1..], mtu);
      if |nals[0]| >= 2 {
        NalRoundTrip(a, nals[0], mtu);
      }
      FeedAllAppend(a, first, rest);
      StreamRoundTrip(FeedAll(a, first).0, nals[1..], mtu);
    }
  }

  // ---------------------------------------------------------------- the packets of a track

  function PayloadsOf(ps: seq<Packet>): (qs: seq<Bytes>)
    ensures |qs| == |ps| && forall i :: 0 <= i < |ps| ==> qs[i] == ps[i].payload
  {
    seq(|ps|, i requires 0 <= i < |ps| => ps[i].payload)
  }

  /** Numbered without a gap from the track's sequence number on, and nothing else of the track's identity changed. */
  predicate Consecutive(t: Track, ps: seq<Packet>, t': Track) {
    && t'.sequence == (t.sequence + |ps|) % M16
    && t'.payloadType == t.payloadType && t'.ssrc == t.ssrc
    && forall i :: 0 <= i < |ps| ==>
         ps[i].sequence == (t.sequence + i) % M16 && ps[i].payloadType == t.payloadType && ps[i].ssrc == t.ssrc
  }

  lemma ConsecutiveAppend(t: Track, ps: seq<Packet>, t1: Track, qs: seq<Packet>, t2: Track)
    requires Consecutive(t, ps, t1) && Consecutive(t1, qs, t2)
    ensures Consecutive(t, ps + qs, t2)
  {
    forall i | |ps| <= i < |ps| + |qs|
      ensures (ps + qs)[i].sequence == (t.sequence + i) % M16
    {
      ModAdd(t.sequence + |ps|, i - |ps|);
    }
    ModAdd(t.sequence + |ps|, |qs|);
  }

  lemma ModAdd(a: int, b: int)
    ensures (a % M16 + b) % M16 == (a + b) % M16
  {
    var q := a / M16;
    assert a + b == a % M16 + b + M16 * q;
  }

  /** One chunk's packets carry its NAL in order, share a timestamp, and only the last of a VCL NAL is marked. */
  lemma HevcPacketsAre(t: Track, chunk: VideoChunk, mtu: int)
    requires TrackOk(t) && mtu >= 4 && HasType(chunk)
    ensures var (t', ps) := HevcPackets(t, chunk, mtu);
            && Consecutive(t, ps, t') && t'.audioTimestamp == t.audioTimestamp
            && PayloadsOf(ps) == NalPayloads(Payload(chunk), mtu)
            && (forall i :: 0 <= i < |ps| ==> (ps[i].marker <==> i == |ps| - 1 && NalType(chunk) < 32))
            && (forall p <- ps :: p.timestamp == Stamp(t, chunk.timestampNs))
  {
  }

  /** What a track is given to send. */
  datatype Media = Video(chunk: VideoChunk) | Audio(data: Bytes)

  predicate Sendable(m: Media, mtu: int) { mtu >= 4 && (m.Video? ==> HasType(m.chunk)) }

  function SendOne(t: Track, m: Media, mtu: int): (Track, seq<Packet>)
    requires Sendable(m, mtu)
  {
    match m
    case Video(chunk) => HevcPackets(t, chunk, mtu)
    case Audio(data) => PcmAll(t, data, mtu)
  }

  function SendAll(t: Track, ms: seq<Media>, mtu: int): (Track, seq<Packet>)
    requires forall m <- ms :: Sendable(m, mtu)
    decreases |ms|
  {
    if ms == [] then (t, [])
    else
      var (t1, ps) := SendOne(t, ms[0], mtu);
      var (t2, more) := SendAll(t1, ms[1..], mtu);
      (t2, ps + more)
  }

  lemma {:induction false} PcmConsecutive(t: Track, payloads: seq<Bytes>)
    requires TrackOk(t)
    ensures var (t', ps) := PcmPackets(t, payloads); Consecutive(t, ps, t') && PayloadsOf(ps) == payloads
    decreases |payloads|
  {
    if payloads != [] {
      var t1 := AfterPcm(t, payloads[0]);
      PcmConsecutive(t1, payloads[1..]);
      var (t2, more) := PcmPackets(t1, payloads[1..]);
      var one := [Packet(false, t.payloadType, t.sequence, t.audioTimestamp, t.ssrc, payloads[0])];
      ConsecutiveAppend(t, one, t1, more, t2);
    }
  }

  /** Over any sequence of video and audio calls, the track's packets are numbered consecutively modulo 2^16. */
  lemma {:induction false} TrackContinuity(t: Track, ms: seq<Media>, mtu: int)
    requires TrackOk(t) && forall m <- ms :: Sendable(m, mtu)
    ensures var (t', ps) := SendAll(t, ms, mtu); Consecutive(t, ps, t') && TrackOk(t') && AllOk(ps)
    decreases |ms|
  {
    if ms != [] {
      var (t1, ps) := SendOne(t, ms[0], mtu);
      SendOneOk(t, ms[0], mtu);
      TrackContinuity(t1, ms[1..], mtu);
      var (t2, more) := SendAll(t1, ms[1..], mtu);
      ConsecutiveAppend(t, ps, t1, more, t2);
    }
  }

  lemma SendOneOk(t: Track, m: Media, mtu: int)
    requires TrackOk(t) && Sendable(m, mtu)
    ensures var (t1, ps) := SendOne(t, m, mtu); Consecutive(t, ps, t1) && TrackOk(t1) && AllOk(ps)
  {
    match m
    case Video(chunk) =>
      HevcPacketsOk(t, chunk, mtu);
      HevcPacketsAre(t, chunk, mtu);
    case Audio(data) =>
      var parts := Parts(SwapPairs(Even(data)), mtu / 2 * 2);
      PcmPacketsOk(t, parts);
      PcmConsecutive(t, parts);
  }

  // ---------------------------------------------------------------- audio

  /** Every packet is stamped with the base plus the samples in the payloads before it. */
  predicate StampedBySamples(base: int, ps: seq<Packet>) {
    forall i :: 0 <= i < |ps| ==> ps[i].timestamp == (base + |Flatten(PayloadsOf(ps)[..i])| / 2) % M32
  }

  function AllNetwork(datas: seq<Bytes>): (r: Bytes)
    ensures |r| % 2 == 0
  {
    if datas == [] then [] else SwapPairs(Even(datas[0])) + AllNetwork(datas[1..])
  }

  function AudioAll(t: Track, datas: seq<Bytes>, mtu: int): (Track, seq<Packet>)
    requires mtu >= 2
    decreases |datas|
  {
    if datas == [] then (t, [])
    else
      var (t1, ps) := PcmAll(t, datas[0], mtu);
      var (t2, more) := AudioAll(t1, datas[1..], mtu);
      (t2, ps + more)
  }

  /** Advancing by a whole number of samples and then by more is advancing by all of them. */
  lemma SamplesAdd(base: int, a: int, b: int)
    requires a % 2 == 0
    ensures ((base + a / 2) % M32 + b / 2) % M32 == (base + (a + b) / 2) % M32
  {
    var v := base + a / 2;
    assert (a + b) / 2 == a / 2 + b / 2;
    assert v + b / 2 == v % M32 + b / 2 + M32 * (v / M32);
  }

  predicate AllEven(ps: seq<Bytes>) { forall p <- ps :: |p| % 2 == 0 }

  /** Where the audio clock stands after some payloads. */
  lemma {:induction false} PcmClock(t: Track, payloads: seq<Bytes>)
    requires TrackOk(t) && AllEven(payloads)
    ensures PcmPackets(t, payloads).0.audioTimestamp == (t.audioTimestamp + |Flatten(payloads)| / 2) % M32
    decreases |payloads|
  {
    if payloads != [] {
      PcmClock(AfterPcm(t, payloads[0]), payloads[1..]);
      SamplesAdd(t.audioTimestamp, |payloads[0]|, |Flatten(payloads[1..])|);
    }
  }

  lemma {:induction false} PcmStampAt(t: Track, payloads: seq<Bytes>, i: nat)
    requires TrackOk(t) && AllEven(payloads) && i < |payloads|
    ensures |PcmPackets(t, payloads).1| == |payloads|
    ensures PcmPackets(t, payloads).1[i].timestamp == (t.audioTimestamp + |Flatten(payloads[..i])| / 2) % M32
    decreases |payloads|
  {
    PcmConsecutive(t, payloads);
    if i > 0 {
      PcmStampAt(AfterPcm(t, payloads[0]), payloads[1..], i - 1);
      assert payloads[..i][1..] == payloads[1..][..i - 1];
      SamplesAdd(t.audioTimestamp, |payloads[0]|, |Flatten(payloads[1..][..i - 1])|);
    }
  }

  lemma PcmStamped(t: Track, payloads: seq<Bytes>)
    requires TrackOk(t) && AllEven(payloads)
    ensures StampedBySamples(t.audioTimestamp, PcmPackets(t, payloads).1)
  {
    var ps := PcmPackets(t, payloads).1;
    PcmConsecutive(t, payloads);
    assert PayloadsOf(ps) == payloads;
    forall i | 0 <= i < |ps|
      ensures ps[i].timestamp == (t.audioTimestamp + |Flatten(PayloadsOf(ps)[..i])| / 2) % M32
    {
      PcmStampAt(t, payloads, i);
    }
  }

  lemma {:induction false} PcmAppend(t: Track, xs: seq<Bytes>, ys: seq<Bytes>)
    ensures var (t1, ps) := PcmPackets(t, xs);
            var (t2, qs) := PcmPackets(t1, ys);
            PcmPackets(t, xs + ys) == (t2, ps + qs)
    decreases |xs|
  {
    if xs == [] {
      assert xs + ys == ys;
      assert [] + PcmPackets(t, ys).1 == PcmPackets(t, ys).1;
    } else {
      assert (xs + ys)[1..] == xs[1..] + ys;
      var t0 := AfterPcm(t, xs[0]);
      PcmAppend(t0, xs[1..], ys);
      var (t1, ps) := PcmPackets(t0, xs[1..]);
      var one := Packet(false, t.payloadType, t.sequence, t.audioTimestamp, t.ssrc, xs[0]);
      assert [one] + (ps + PcmPackets(t1, ys).1) == [one] + ps + PcmPackets(t1, ys).1;
    }
  }

  lemma {:induction false} PartsEven(body: Bytes, size: int)
    requires size > 0 && size % 2 == 0 && |body| % 2 == 0
    ensures AllEven(Parts(body, size))
    decreases |body|
  {
    if |body| > size {
      PartsEven(body[size..], size);
    }
  }

  /** The payloads of a run of `pcm` calls. */
  function AllParts(datas: seq<Bytes>, mtu: int): seq<Bytes>
    requires mtu >= 2
  {
    if datas == [] then [] else Parts(SwapPairs(Even(datas[0])), mtu / 2 * 2) + AllParts(datas[1..], mtu)
  }

  lemma {:induction false} AllPartsAre(datas: seq<Bytes>, mtu: int)
    requires mtu >= 2
    ensures AllEven(AllParts(datas, mtu)) && Flatten(AllParts(datas, mtu)) == AllNetwork(datas)
  {
    if datas != [] {
      var network, size := SwapPairs(Even(datas[0])), mtu / 2 * 2;
      PartsJoin(network, size);
      PartsEven(network, size);
      FlattenAppend(Parts(network, size), AllParts(datas[1..], mtu));
      AllPartsAre(datas[1..], mtu);
    }
  }

  lemma {:induction false} AudioIsOneRun(t: Track, datas: seq<Bytes>, mtu: int)
    requires mtu >= 2
    ensures AudioAll(t, datas, mtu) == PcmPackets(t, AllParts(datas, mtu))
    decreases |datas|
  {
    if datas != [] {
      AudioIsOneRun(PcmAll(t, datas[0], mtu).0, datas[1..], mtu);
      PcmAppend(t, Parts(SwapPairs(Even(datas[0])), mtu / 2 * 2), AllParts(datas[1..], mtu));
    }
  }

  /**
   An audio track: the concatenated payloads are the byte-swapped even-length inputs, and each packet's timestamp is
   the track's base plus the samples already sent, modulo 2^32.
   */
  lemma AudioContinuity(t: Track, datas: seq<Bytes>, mtu: int)
    requires TrackOk(t) && mtu >= 2
    ensures var (t', ps) := AudioAll(t, datas, mtu);
            && Consecutive(t, ps, t')
            && Flatten(PayloadsOf(ps)) == AllNetwork(datas)
            && StampedBySamples(t.audioTimestamp, ps)
            && t'.audioTimestamp == (t.audioTimestamp + |AllNetwork(datas)| / 2) % M32
  {
    AudioIsOneRun(t, datas, mtu);
    AllPartsAre(datas, mtu);
    PcmContinuity(t, AllParts(datas, mtu));
  }

  lemma PcmContinuity(t: Track, payloads: seq<Bytes>)
    requires TrackOk(t) && AllEven(payloads)
    ensures var (t', ps) := PcmPackets(t, payloads);
            && Consecutive(t, ps, t') && PayloadsOf(ps) == payloads && StampedBySamples(t.audioTimestamp, ps)
            && t'.audioTimestamp == (t.audioTimestamp + |Flatten(payloads)| / 2) % M32
  {
    PcmClock(t, payloads);
    PcmConsecutive(t, payloads);
    PcmStamped(t, payloads);
  }
}
