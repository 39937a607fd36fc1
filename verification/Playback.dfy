/** The bounded queue in front of a local player (nexxt_lan.py:1334-1506, 1528-1534). */
module Playback {
  // Offers, the writer taking a chunk, the player dying and closing are atomic steps of PlaybackPipe.

  import opened Bytes
  import opened Hevc
  import opened Rtp

  type ParameterSets = map<int, Bytes>

  datatype Pipe = Pipe(
    maxChunks: Option<int>, maxBytes: int, codecSafe: bool,
    accepting: bool, broken: bool, started: bool,
    desynchronised: bool, sets: ParameterSets, queue: seq<Bytes>, queuedBytes: int,
    peakChunks: int, peakBytes: int,
    dropped: int, droppedBytes: int, overflows: int, resyncs: int)

  function NewPipe(maxChunks: Option<int>, maxBytes: int, codecSafe: bool): Pipe {
    Pipe(maxChunks, maxBytes, codecSafe, true, false, false, false, map[], [], 0, 0, 0, 0, 0, 0, 0)
  }

  function Total(chunks: seq<Bytes>): nat {
    if chunks == [] then 0 else Total(chunks[..|chunks| - 1]) + |chunks[|chunks| - 1]|
  }

  lemma TotalSnoc(chunks: seq<Bytes>, c: Bytes)
    ensures Total(chunks + [c]) == Total(chunks) + |c|
  {
    assert (chunks + [c])[..|chunks|] == chunks;
  }

  lemma {:induction false} TotalAppend(a: seq<Bytes>, b: seq<Bytes>)
    ensures Total(a + b) == Total(a) + Total(b)
  {
    if b == [] {
      assert a + b == a;
    } else {
      var n := |b| - 1;
      assert a + b == (a + b[..n]) + [b[n]] && b == b[..n] + [b[n]];
      TotalSnoc(a + b[..n], b[n]);
      TotalAppend(a, b[..n]);
    }
  }

  lemma TotalHead(chunks: seq<Bytes>)
    requires chunks != []
    ensures Total(chunks) == |chunks[0]| + Total(chunks[1..])
  {
    TotalAppend([chunks[0]], chunks[1..]);
    TotalSnoc([], chunks[0]);
    assert [] + [chunks[0]] == [chunks[0]];
    assert chunks == [chunks[0]] + chunks[1..];
  }

  /** The NAL type of a chunk, where there is one. */
  function ChunkType(chunk: Bytes): Option<int> {
    if |chunk| < 5 then None else Some(NalTypeOf(chunk[TypeOffset(chunk)]))
  }

  predicate IsSet(chunk: Bytes) { ChunkType(chunk).Some? && 32 <= ChunkType(chunk).value <= 34 }

  /** A picture a decoder can restart from. */
  predicate IsRestart(chunk: Bytes) { ChunkType(chunk).Some? && 19 <= ChunkType(chunk).value <= 21 }

  function CacheSet(sets: ParameterSets, chunk: Bytes): ParameterSets {
    if IsSet(chunk) then sets[ChunkType(chunk).value := chunk] else sets
  }

  function Cached(sets: ParameterSets, kind: int): seq<Bytes> { if kind in sets then [sets[kind]] else [] }

  function Preamble(sets: ParameterSets): seq<Bytes> { Cached(sets, 32) + Cached(sets, 33) + Cached(sets, 34) }

  // ---------------------------------------------------------------- operations

  predicate FitsNow(p: Pipe, chunk: Bytes) {
    && |chunk| <= p.maxBytes && p.queuedBytes + |chunk| <= p.maxBytes
    && (p.maxChunks.Some? ==> |p.queue| < p.maxChunks.value)
  }

  function Append(p: Pipe, chunk: Bytes): Pipe {
    var queue, bytes := p.queue + [chunk], p.queuedBytes + |chunk|;
    p.(queue := queue, queuedBytes := bytes,
       peakChunks := Max(p.peakChunks, |queue|), peakBytes := Max(p.peakBytes, bytes))
  }

  function AppendAll(p: Pipe, chunks: seq<Bytes>): Pipe {
    if chunks == [] then p else Append(AppendAll(p, chunks[..|chunks| - 1]), chunks[|chunks| - 1])
  }

  function DropAll(p: Pipe, chunks: seq<Bytes>): Pipe {
    p.(dropped := p.dropped + |chunks|, droppedBytes := p.droppedBytes + Total(chunks))
  }

  predicate TooBig(p: Pipe, chunks: seq<Bytes>) { Total(chunks) > p.maxBytes }

  /** A video chunk while waiting for a restart. The chunk has been looked at for the cache already. */
  function Resync(p: Pipe, chunk: Bytes): Pipe {
    var restart := Preamble(p.sets) + [chunk];
    if !IsRestart(chunk) then if IsSet(chunk) then p else DropAll(p, [chunk])
    else if TooBig(p, restart) then DropAll(p, restart)
    else
      var p1 := AppendAll(p, restart);
      p1.(desynchronised := false, resyncs := p1.resyncs + 1)
  }

  /** The queue given up. */
  function Overflow(p: Pipe): Pipe {
    DropAll(p, p.queue).(queue := [], queuedBytes := 0, desynchronised := true, overflows := p.overflows + 1)
  }

  function OfferVideo(p: Pipe, chunk: Bytes): Pipe {
    var p1 := p.(sets := CacheSet(p.sets, chunk));
    if p1.desynchronised then Resync(p1, chunk)
    else if FitsNow(p1, chunk) then Append(p1, chunk)
    else Resync(Overflow(p1), chunk)
  }

  function DropOldest(p: Pipe): Pipe
    requires p.queue != []
  {
    DropAll(p, [p.queue[0]]).(queue := p.queue[1..], queuedBytes := p.queuedBytes - |p.queue[0]|)
  }

  /** The oldest chunks evicted until a new one fits or none is left. */
  function Evict(p: Pipe, chunk: Bytes): (p': Pipe)
    ensures FitsNow(p', chunk) || p'.queue == []
    decreases |p.queue|
  {
    if FitsNow(p, chunk) || p.queue == [] then p else Evict(DropOldest(p), chunk)
  }

  function OfferAudio(p: Pipe, chunk: Bytes): Pipe {
    var p1 := Evict(p, chunk);
    if FitsNow(p1, chunk) then Append(p1, chunk)
    else DropAll(p1, [chunk]).(overflows := p1.overflows + 1)
  }

  function MarkDead(p: Pipe): Pipe { p.(broken := true, queue := [], queuedBytes := 0) }

  predicate Live(p: Pipe) { p.accepting && !p.broken }

  /** An offer; `launches` says whether the player process could be started, should that be needed. */
  function Offer(p: Pipe, chunk: Bytes, launches: bool): Pipe {
    if chunk == [] || !Live(p) then p
    else if !p.started && !launches then MarkDead(p)
    else
      var p1 := p.(started := true);
      if p.codecSafe then OfferVideo(p1, chunk) else OfferAudio(p1, chunk)
  }

  /** The writer taking the next chunk, if there is one. */
  function Pop(p: Pipe): (Pipe, Option<Bytes>) {
    if p.queue == [] then (p, None)
    else (p.(queue := p.queue[1..], queuedBytes := p.queuedBytes - |p.queue[0]|), Some(p.queue[0]))
  }

  function Close(p: Pipe): Pipe { p.(accepting := false, queue := [], queuedBytes := 0) }

  // ---------------------------------------------------------------- what every operation keeps

  /** A restart is not checked against the chunk limit, so it may put up to four chunks in a smaller queue. */
  function ChunkLimit(p: Pipe): Option<int> {
    if p.maxChunks.None? then None
    else Some(if p.codecSafe then Max(4, p.maxChunks.value) else Max(0, p.maxChunks.value))
  }

  predicate PipeOk(p: Pipe) {
    && p.queuedBytes == Total(p.queue) <= Max(0, p.maxBytes)
    && (ChunkLimit(p).Some? ==> |p.queue| <= ChunkLimit(p).value)
    && (p.desynchronised ==> p.queue == [])
    && |p.queue| <= p.peakChunks && p.queuedBytes <= p.peakBytes <= Max(0, p.maxBytes)
    && (!Live(p) ==> p.queue == [])
  }

  /** Nothing an offer does touches the configuration or the life of the pipe. */
  predicate SameSetup(p: Pipe, p': Pipe) {
    && p'.maxChunks == p.maxChunks && p'.maxBytes == p.maxBytes && p'.codecSafe == p.codecSafe
    && p'.accepting == p.accepting && p'.broken == p.broken && p'.started == p.started
    && p.overflows <= p'.overflows
  }

  lemma {:induction false} AppendAllSetup(p: Pipe, chunks: seq<Bytes>)
    ensures var p' := AppendAll(p, chunks);
            SameSetup(p, p') && p'.sets == p.sets && p'.desynchronised == p.desynchronised
  {
    if chunks != [] {
      AppendAllSetup(p, chunks[..|chunks| - 1]);
    }
  }

  lemma {:induction false} AppendAllIs(p: Pipe, chunks: seq<Bytes>)
    requires p.peakBytes <= Max(0, p.maxBytes) && p.queuedBytes + Total(chunks) <= p.maxBytes
    requires |p.queue| <= p.peakChunks && p.queuedBytes <= p.peakBytes
    ensures var p' := AppendAll(p, chunks);
            && p'.queue == p.queue + chunks && p'.queuedBytes == p.queuedBytes + Total(chunks)
            && |p'.queue| <= p'.peakChunks && p'.queuedBytes <= p'.peakBytes <= Max(0, p.maxBytes)
  {
    AppendAllSetup(p, chunks);
    if chunks == [] {
      assert p.queue + chunks == p.queue;
    } else {
      var n := |chunks| - 1;
      AppendAllIs(p, chunks[..n]);
      AppendAllSetup(p, chunks[..n]);
      assert p.queue + chunks == p.queue + chunks[..n] + [chunks[n]];
    }
  }

  lemma PreambleIsShort(sets: ParameterSets)
    ensures |Preamble(sets)| <= 3
  {
  }

  lemma RestartShape(p: Pipe, restart: seq<Bytes>)
    requires p.queue == [] && p.queuedBytes == 0 && Total(restart) <= p.maxBytes
    requires 0 <= p.peakChunks && 0 <= p.peakBytes <= Max(0, p.maxBytes)
    ensures var p' := AppendAll(p, restart);
            && p'.queue == restart && p'.queuedBytes == Total(restart)
            && |p'.queue| <= p'.peakChunks && p'.queuedBytes <= p'.peakBytes <= Max(0, p.maxBytes)
  {
    AppendAllIs(p, restart);
    assert [] + restart == restart;
  }

  /** A restart is not checked against the chunk limit: it exceeds any limit below its own length. */
  lemma RestartExceedsLimit(p: Pipe, chunk: Bytes)
    requires PipeOk(p) && p.desynchronised && Live(p) && p.codecSafe && p.maxChunks.Some?
    requires IsRestart(chunk) && !TooBig(p, Preamble(p.sets) + [chunk])
    ensures |Resync(p, chunk).queue| > p.maxChunks.value <==> |Preamble(p.sets)| >= p.maxChunks.value
  {
    RestartShape(p, Preamble(p.sets) + [chunk]);
  }

  lemma RestartKeepsOk(p: Pipe, restart: seq<Bytes>)
    requires PipeOk(p) && p.desynchronised && Live(p) && p.codecSafe
    requires |restart| <= 4 && !TooBig(p, restart)
    ensures var p1 := AppendAll(p, restart);
            p1.queue == restart && PipeOk(p1.(desynchronised := false, resyncs := p1.resyncs + 1))
  {
    AppendAllSetup(p, restart);
    RestartShape(p, restart);
  }

  lemma ResyncKeepsOk(p: Pipe, chunk: Bytes)
    requires PipeOk(p) && p.desynchronised && Live(p) && p.codecSafe
    ensures PipeOk(Resync(p, chunk))
  {
    var restart := Preamble(p.sets) + [chunk];
    PreambleIsShort(p.sets);
    if IsRestart(chunk) && !TooBig(p, restart) {
      RestartKeepsOk(p, restart);
    }
  }

  lemma OverflowKeepsOk(p: Pipe)
    requires PipeOk(p) && Live(p)
    ensures PipeOk(Overflow(p))
  {
  }

  lemma AppendKeepsOk(p: Pipe, chunk: Bytes)
    requires PipeOk(p) && Live(p) && !p.desynchronised && FitsNow(p, chunk)
    ensures PipeOk(Append(p, chunk))
  {
    TotalSnoc(p.queue, chunk);
  }

  lemma OfferVideoKeepsOk(p: Pipe, chunk: Bytes)
    requires PipeOk(p) && Live(p) && p.codecSafe
    ensures PipeOk(OfferVideo(p, chunk))
  {
    var p1 := p.(sets := CacheSet(p.sets, chunk));
    if p1.desynchronised {
      ResyncKeepsOk(p1, chunk);
    } else if FitsNow(p1, chunk) {
      AppendKeepsOk(p1, chunk);
    } else {
      OverflowKeepsOk(p1);
      ResyncKeepsOk(Overflow(p1), chunk);
    }
  }

  /** The queue without its k oldest chunks, each counted as dropped. */
  function Evicted(p: Pipe, k: nat): Pipe
    requires k <= |p.queue|
  {
    DropAll(p, p.queue[..k]).(queue := p.queue[k..], queuedBytes := Total(p.queue[k..]))
  }

  lemma EvictedStep(p: Pipe, k: nat)
    requires k < |p.queue| && p.queuedBytes == Total(p.queue)
    ensures Evicted(DropOldest(p), k) == Evicted(p, k + 1)
  {
    var p1, c := DropOldest(p), p.queue[0];
    assert p.queue[..k + 1] == [c] + p1.queue[..k];
    TotalAppend([c], p1.queue[..k]);
    assert p.queue[k + 1..] == p1.queue[k..];
  }

  /** Eviction takes the fewest oldest chunks that let the new one in, or all of them when nothing does. */
  lemma {:induction false} EvictIs(p: Pipe, chunk: Bytes) returns (k: nat)
    requires p.queuedBytes == Total(p.queue)
    ensures k <= |p.queue| && Evict(p, chunk) == Evicted(p, k)
    ensures forall j :: 0 <= j < k ==> !FitsNow(Evicted(p, j), chunk)
    decreases |p.queue|
  {
    EvictedNone(p);
    if FitsNow(p, chunk) || p.queue == [] {
      k := 0;
    } else {
      var p1 := DropOldest(p);
      TotalHead(p.queue);
      var k1 := EvictIs(p1, chunk);
      k := k1 + 1;
      EvictedStep(p, k1);
      forall j | 0 <= j < k ensures !FitsNow(Evicted(p, j), chunk) {
        if j > 0 {
          EvictedStep(p, j - 1);
        }
      }
    }
  }

  lemma EvictedNone(p: Pipe)
    requires p.queuedBytes == Total(p.queue)
    ensures Evicted(p, 0) == p
  {
    assert p.queue[..0] == [] && p.queue[0..] == p.queue;
  }

  lemma EvictedKeepsOk(p: Pipe, k: nat)
    requires PipeOk(p) && k <= |p.queue|
    ensures var p' := Evicted(p, k);
            && PipeOk(p')
            && |p'.queue| + p'.dropped == |p.queue| + p.dropped
            && p'.queuedBytes + p'.droppedBytes == p.queuedBytes + p.droppedBytes
  {
    assert p.queue == p.queue[..k] + p.queue[k..];
    TotalAppend(p.queue[..k], p.queue[k..]);
  }

  lemma TotalOne(c: Bytes)
    ensures Total([c]) == |c|
  {
    TotalSnoc([], c);
    assert [] + [c] == [c];
  }

  /** Audio is neither lost nor made up: every chunk offered is queued or counted as dropped. */
  lemma OfferAudioKeepsOk(p: Pipe, chunk: Bytes)
    requires PipeOk(p) && Live(p) && !p.desynchronised && !p.codecSafe
    ensures var p' := OfferAudio(p, chunk);
            && PipeOk(p') && !p'.desynchronised
            && |p'.queue| + p'.dropped == |p.queue| + p.dropped + 1
            && p'.queuedBytes + p'.droppedBytes == p.queuedBytes + p.droppedBytes + |chunk|
  {
    var k := EvictIs(p, chunk);
    EvictedKeepsOk(p, k);
    var p1 := Evicted(p, k);
    if FitsNow(p1, chunk) {
      AppendKeepsOk(p1, chunk);
    } else {
      TotalOne(chunk);
    }
  }

  lemma PopKeepsOk(p: Pipe)
    requires PipeOk(p)
    ensures PipeOk(Pop(p).0)
  {
    if p.queue != [] {
      TotalHead(p.queue);
    }
  }

  lemma OfferKeepsOk(p: Pipe, chunk: Bytes, launches: bool)
    requires PipeOk(p) && (!p.codecSafe ==> !p.desynchronised)
    ensures var p' := Offer(p, chunk, launches);
            PipeOk(p') && (!p'.codecSafe ==> !p'.desynchronised)
  {
    if chunk != [] && Live(p) && (p.started || launches) {
      var p1 := p.(started := true);
      if p.codecSafe {
        OfferVideoKeepsOk(p1, chunk);
        OfferVideoSetup(p1, chunk);
      } else {
        OfferAudioKeepsOk(p1, chunk);
        OfferAudioSetup(p1, chunk);
      }
    }
  }

  lemma ResyncSetup(p: Pipe, chunk: Bytes)
    ensures SameSetup(p, Resync(p, chunk)) && Resync(p, chunk).sets == p.sets
  {
    var restart := Preamble(p.sets) + [chunk];
    if IsRestart(chunk) && !TooBig(p, restart) {
      AppendAllSetup(p, restart);
      var p1 := AppendAll(p, restart);
      assert Resync(p, chunk) == p1.(desynchronised := false, resyncs := p1.resyncs + 1);
    }
  }

  lemma OfferVideoSetup(p: Pipe, chunk: Bytes)
    ensures SameSetup(p, OfferVideo(p, chunk)) && OfferVideo(p, chunk).sets == CacheSet(p.sets, chunk)
  {
    var p1 := p.(sets := CacheSet(p.sets, chunk));
    if p1.desynchronised {
      ResyncSetup(p1, chunk);
    } else if !FitsNow(p1, chunk) {
      ResyncSetup(Overflow(p1), chunk);
    }
  }

  lemma OfferAudioSetup(p: Pipe, chunk: Bytes)
    requires p.queuedBytes == Total(p.queue)
    ensures SameSetup(p, OfferAudio(p, chunk))
  {
    var k := EvictIs(p, chunk);
  }

  // ---------------------------------------------------------------- a restart over the limit

  /** A pipe with room for one chunk that ends up with three: a VPS, an SPS for which there is no room, and an IDR. */
  lemma RestartOverLimit()
    ensures var vps, sps, idr: Bytes := [0, 0, 0, 1, 64, 1], [0, 0, 0, 1, 66, 1], [0, 0, 0, 1, 38, 1];
            var p := Offer(Offer(Offer(NewPipe(Some(1), 100, true), vps, true), sps, true), idr, true);
            p.queue == [vps, sps, idr] && p.maxChunks == Some(1)
  {
    var vps, sps, idr: Bytes := [0, 0, 0, 1, 64, 1], [0, 0, 0, 1, 66, 1], [0, 0, 0, 1, 38, 1];
    FirstSet(vps);
    SetWithoutRoom(Offer(NewPipe(Some(1), 100, true), vps, true), vps, sps);
    RestartWithSets(Offer(Offer(NewPipe(Some(1), 100, true), vps, true), sps, true), vps, sps, idr);
  }

  lemma FirstSet(vps: Bytes)
    requires |vps| == 6 && ChunkType(vps) == Some(32)
    ensures var p := Offer(NewPipe(Some(1), 100, true), vps, true);
            && p.queue == [vps] && p.sets == map[32 := vps] && !p.desynchronised && Live(p) && p.started
            && p.maxChunks == Some(1) && p.maxBytes == 100 && p.codecSafe && PipeOk(p)
  {
    OfferKeepsOk(NewPipe(Some(1), 100, true), vps, true);
  }

  lemma SetWithoutRoom(p: Pipe, vps: Bytes, sps: Bytes)
    requires p.queue == [vps] && p.sets == map[32 := vps] && !p.desynchronised && Live(p) && p.started
    requires PipeOk(p) && p.maxChunks == Some(1) && p.maxBytes == 100 && p.codecSafe
    requires |sps| == 6 && ChunkType(sps) == Some(33)
    ensures var p' := Offer(p, sps, true);
            && p'.queue == [] && p'.sets == map[32 := vps, 33 := sps] && p'.desynchronised && Live(p') && p'.started
            && p'.maxChunks == Some(1) && p'.maxBytes == 100 && p'.codecSafe && PipeOk(p')
  {
    OfferKeepsOk(p, sps, true);
  }

  lemma RestartQueues(p: Pipe, idr: Bytes)
    requires PipeOk(p) && p.desynchronised && Live(p) && p.started && p.codecSafe
    requires IsRestart(idr) && !TooBig(p, Preamble(p.sets) + [idr])
    ensures var p' := Offer(p, idr, true); p'.queue == Preamble(p.sets) + [idr] && p'.maxChunks == p.maxChunks
  {
    RestartShape(p.(started := true), Preamble(p.sets) + [idr]);
    AppendAllSetup(p, Preamble(p.sets) + [idr]);
  }

  lemma RestartWithSets(p: Pipe, vps: Bytes, sps: Bytes, idr: Bytes)
    requires p.queue == [] && p.sets == map[32 := vps, 33 := sps] && p.desynchronised && Live(p) && p.started
    requires PipeOk(p) && p.maxChunks == Some(1) && p.maxBytes == 100 && p.codecSafe
    requires |vps| == |sps| == |idr| == 6 && ChunkType(idr) == Some(19)
    ensures var p' := Offer(p, idr, true); p'.queue == [vps, sps, idr] && p'.maxChunks == Some(1)
  {
    assert Preamble(p.sets) + [idr] == [vps, sps, idr];
    TotalThree(vps, sps, idr);
    RestartQueues(p, idr);
  }

  lemma TotalThree(a: Bytes, b: Bytes, c: Bytes)
    ensures Total([a, b, c]) == |a| + |b| + |c|
  {
    TotalSnoc([], a);
    TotalSnoc([a], b);
    TotalSnoc([a, b], c);
    assert [] + [a] == [a] && [a] + [b] == [a, b] && [a, b] + [c] == [a, b, c];
  }
}
