/**
 PlaybackPipe as it is written (nexxt_lan.py:1374-1506, 1528-1534). The lock is taken for granted: each method is one
 atomic step, and each is proved against the function of the same name in Playback, as PythonKCP is against KcpModel.
 */
module PlayerPipe {
  import opened Bytes
  import opened Playback

  class PlaybackPipe {
    const maxChunks: Option<int>
    const maxBytes: int
    const codecSafe: bool

    var accepting: bool
    var broken: bool
    var started: bool
    var desynchronised: bool
    var parameterSets: ParameterSets
    var queue: seq<Bytes>
    var queuedBytes: int
    var peakChunks: int
    var peakBytes: int
    var dropped: int
    var droppedBytes: int
    var overflowEvents: int
    var decoderResyncs: int

    ghost function State(): Pipe
      reads this
    {
      Pipe(maxChunks, maxBytes, codecSafe, accepting, broken, started, desynchronised, parameterSets,
           queue, queuedBytes, peakChunks, peakBytes, dropped, droppedBytes, overflowEvents, decoderResyncs)
    }

    ghost predicate Valid()
      reads this
    {
      PipeOk(State()) && (!codecSafe ==> !desynchronised)
    }

    constructor (maxChunks: Option<int>, maxBytes: Option<int>, codecSafe: bool)
      ensures State() == NewPipe(maxChunks, if maxBytes.Some? then maxBytes.value else 0x40_0000, codecSafe)
      ensures Valid()
    {
      this.maxChunks := maxChunks;
      this.maxBytes := if maxBytes.Some? then maxBytes.value else 0x40_0000;
      this.codecSafe := codecSafe;
      accepting, broken, started, desynchronised := true, false, false, false;
      parameterSets := map[];
      queue, queuedBytes, peakChunks, peakBytes := [], 0, 0, 0;
      dropped, droppedBytes, overflowEvents, decoderResyncs := 0, 0, 0, 0;
    }

    method FitsLocked(chunk: Bytes) returns (fits: bool)
      ensures fits == FitsNow(State(), chunk)
    {
      fits := && |chunk| <= maxBytes
              && queuedBytes + |chunk| <= maxBytes
              && (maxChunks.None? || |queue| < maxChunks.value);
    }

    method AppendLocked(chunk: Bytes)
      modifies `queue, `queuedBytes, `peakChunks, `peakBytes
      ensures State() == Append(old(State()), chunk)
    {
      queue := queue + [chunk];
      queuedBytes := queuedBytes + |chunk|;
      peakChunks := Max(peakChunks, |queue|);
      peakBytes := Max(peakBytes, queuedBytes);
    }

    method DropLocked(chunk: Bytes)
      modifies `dropped, `droppedBytes
      ensures State() == DropAll(old(State()), [chunk])
    {
      TotalOne(chunk);
      dropped := dropped + 1;
      droppedBytes := droppedBytes + |chunk|;
    }

    /** Drops every queued chunk, oldest first. */
    method DropQueue()
      modifies `dropped, `droppedBytes, `queue
      ensures State() == DropAll(old(State()), old(queue)).(queue := [])
    {
      ghost var p := State();
      ghost var k := 0;
      LeftAll(p);
      while queue != []
        invariant k <= |p.queue| && State() == Left(p, k)
        decreases |queue|
      {
        LeftStep(p, k);
        ghost var before := State();
        var oldest := queue[0];
        queue := queue[1..];
        assert State() == before.(queue := before.queue[1..]);
        DropLocked(oldest);
        k := k + 1;
      }
      assert p.queue[..k] == p.queue;
    }

    method DropParts(parts: seq<Bytes>)
      modifies `dropped, `droppedBytes
      ensures State() == DropAll(old(State()), parts)
    {
      ghost var p := State();
      for i := 0 to |parts|
        invariant State() == DropAll(p, parts[..i])
      {
        DropAllSnoc(p, parts, i);
        DropLocked(parts[i]);
      }
      assert parts[..|parts|] == parts;
    }

    method AppendParts(parts: seq<Bytes>)
      modifies `queue, `queuedBytes, `peakChunks, `peakBytes
      ensures State() == AppendAll(old(State()), parts)
    {
      ghost var p := State();
      for i := 0 to |parts|
        invariant State() == AppendAll(p, parts[..i])
      {
        assert parts[..i + 1][..i] == parts[..i];
        AppendLocked(parts[i]);
      }
      assert parts[..|parts|] == parts;
    }

    /** Whether some part, or all of them together, exceed the byte limit. */
    method Exceeds(parts: seq<Bytes>) returns (big: bool)
      ensures big == TooBig(State(), parts)
    {
      var sum := 0;
      for i := 0 to |parts|
        invariant sum == Total(parts[..i]) <= Total(parts)
      {
        TotalSplit(parts, i);
        TotalSplit(parts, i + 1);
        assert parts[..i + 1][..i] == parts[..i];
        if |parts[i]| > maxBytes {
          return true;
        }
        sum := sum + |parts[i]|;
      }
      assert parts[..|parts|] == parts;
      return sum > maxBytes;
    }

    method OfferVideoLocked(chunk: Bytes)
      modifies this
      ensures State() == OfferVideo(old(State()), chunk)
      decreases if desynchronised then 0 else 1
    {
      CacheTwice(parameterSets, chunk);
      if IsSet(chunk) {
        parameterSets := parameterSets[ChunkType(chunk).value := chunk];
      }
      if desynchronised {
        ResyncLocked(chunk);
        return;
      }
      var fits := FitsLocked(chunk);
      if fits {
        AppendLocked(chunk);
        return;
      }
      GiveUpQueue();
      OfferVideoLocked(chunk);
    }

    method GiveUpQueue()
      modifies this
      ensures State() == Overflow(old(State()))
    {
      overflowEvents := overflowEvents + 1;
      DropQueue();
      queuedBytes := 0;
      desynchronised := true;
    }

    /** The branch for a pipe that waits to resynchronise. */
    method ResyncLocked(chunk: Bytes)
      modifies this
      ensures State() == Resync(old(State()), chunk)
    {
      if !IsRestart(chunk) {
        if !IsSet(chunk) {
          DropLocked(chunk);
        }
        return;
      }
      var restart := Cached(parameterSets, 32) + Cached(parameterSets, 33) + Cached(parameterSets, 34) + [chunk];
      var big := Exceeds(restart);
      if big {
        DropParts(restart);
        return;
      }
      AppendParts(restart);
      desynchronised := false;
      decoderResyncs := decoderResyncs + 1;
    }

    method OfferAudioLocked(chunk: Bytes)
      modifies this
      ensures State() == OfferAudio(old(State()), chunk)
    {
      ghost var p := State();
      EvictOld(chunk);
      var fits := FitsLocked(chunk);
      if !fits {
        overflowEvents := overflowEvents + 1;
        DropLocked(chunk);
        return;
      }
      AppendLocked(chunk);
    }

    method EvictOld(chunk: Bytes)
      modifies this
      ensures State() == Evict(old(State()), chunk)
    {
      ghost var p := State();
      var fits := FitsLocked(chunk);
      while !fits && queue != []
        invariant fits == FitsNow(State(), chunk)
        invariant Evict(State(), chunk) == Evict(p, chunk)
        decreases |queue|
      {
        ghost var before := State();
        var discarded := queue[0];
        queue := queue[1..];
        queuedBytes := queuedBytes - |discarded|;
        DropLocked(discarded);
        assert State() == DropOldest(before);
        fits := FitsLocked(chunk);
      }
    }

    /** `launches` stands for whether the player process can be started. */
    method Offer(chunk: Bytes, launches: bool)
      requires Valid()
      modifies this
      ensures Valid() && State() == Playback.Offer(old(State()), chunk, launches)
    {
      OfferKeepsOk(State(), chunk, launches);
      OfferNow(chunk, launches);
    }

    method OfferNow(chunk: Bytes, launches: bool)
      modifies this
      ensures State() == Playback.Offer(old(State()), chunk, launches)
    {
      if chunk == [] || !accepting || broken {
        return;
      }
      if !started {
        if !launches {
          MarkDeadLocked();
          return;
        }
        started := true;
      }
      if codecSafe {
        OfferVideoLocked(chunk);
        return;
      }
      OfferAudioLocked(chunk);
    }

    /** What the writer does under the lock once there is something to do. */
    method Take() returns (chunk: Option<Bytes>)
      requires Valid()
      modifies this
      ensures Valid() && (State(), chunk) == Pop(old(State()))
    {
      PopKeepsOk(State());
      if queue == [] {
        return None;
      }
      chunk := Some(queue[0]);
      queuedBytes := queuedBytes - |queue[0]|;
      queue := queue[1..];
    }

    method MarkDeadLocked()
      modifies this
      ensures State() == MarkDead(old(State())) && GaveUp(State())
      ensures old(Valid()) ==> Valid()
    {
      broken := true;
      queue, queuedBytes := [], 0;
    }

    /** Afterwards nothing is queued, and no offer is ever taken again. */
    method Close()
      requires Valid()
      modifies this
      ensures Valid() && GaveUp(State())
      ensures State() == Playback.Close(old(State()))
    {
      accepting := false;
      queue, queuedBytes := [], 0;
    }
  }

  /** The pipe is empty, and stays so: the writer gets nothing and every offer is ignored. */
  ghost predicate GaveUp(p: Pipe) {
    && p.queue == [] && p.queuedBytes == 0 && Pop(p) == (p, None)
    && forall chunk, launches :: Playback.Offer(p, chunk, launches) == p
  }

  lemma DropAllSnoc(p: Pipe, chunks: seq<Bytes>, k: nat)
    requires k < |chunks|
    ensures DropAll(DropAll(p, chunks[..k]), [chunks[k]]) == DropAll(p, chunks[..k + 1])
  {
    TotalOne(chunks[k]);
    TotalSnoc(chunks[..k], chunks[k]);
    assert chunks[..k + 1] == chunks[..k] + [chunks[k]];
  }

  /** The pipe with its k oldest chunks dropped, its byte count untouched. */
  ghost function Left(p: Pipe, k: nat): Pipe
    requires k <= |p.queue|
  {
    DropAll(p, p.queue[..k]).(queue := p.queue[k..])
  }

  lemma LeftAll(p: Pipe)
    ensures Left(p, 0) == p
  {
    assert p.queue[..0] == [] && p.queue[0..] == p.queue;
  }

  lemma LeftStep(p: Pipe, k: nat)
    requires k <= |p.queue| && Left(p, k).queue != []
    ensures var q := Left(p, k); DropAll(q.(queue := q.queue[1..]), [q.queue[0]]) == Left(p, k + 1)
  {
    DropAllSnoc(p, p.queue, k);
    assert p.queue[k..][1..] == p.queue[k + 1..];
  }

  lemma TotalSplit(chunks: seq<Bytes>, k: nat)
    requires k <= |chunks|
    ensures Total(chunks[..k]) <= Total(chunks)
    ensures k < |chunks| ==> Total(chunks[..k + 1]) == Total(chunks[..k]) + |chunks[k]|
  {
    assert chunks == chunks[..k] + chunks[k..];
    TotalAppend(chunks[..k], chunks[k..]);
    if k < |chunks| {
      assert chunks[..k + 1] == chunks[..k] + [chunks[k]];
      TotalSnoc(chunks[..k], chunks[k]);
    }
  }

  lemma CacheTwice(sets: ParameterSets, chunk: Bytes)
    ensures CacheSet(CacheSet(sets, chunk), chunk) == CacheSet(sets, chunk)
  {
  }
}
