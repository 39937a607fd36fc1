/** What a video player is ever given (nexxt_lan.py:1431-1506). */
module PlaybackTrace {
  // Whatever is dropped, the decoder sees only clean restarts.

  import opened Bytes
  import opened Playback

  datatype Event = Offered(chunk: Bytes, launches: bool) | Taken | Died | Closed

  function React(p: Pipe, e: Event): (Pipe, seq<Bytes>) {
    match e
    case Offered(chunk, launches) => (Offer(p, chunk, launches), [])
    case Taken => var (p', c) := Pop(p); (p', if c.Some? then [c.value] else [])
    case Died => (MarkDead(p), [])
    case Closed => (Close(p), [])
  }

  /** The pipe after some events, and every chunk the writer has been handed. */
  function RunAll(p: Pipe, events: seq<Event>): (Pipe, seq<Bytes>)
    decreases |events|
  {
    if events == [] then (p, [])
    else
      var (p1, handed) := RunAll(p, events[..|events| - 1]);
      var (p2, more) := React(p1, events[|events| - 1]);
      (p2, handed + more)
  }

  /** The chunks offered; empty ones are ignored by the source. */
  function Inputs(events: seq<Event>): seq<Bytes> {
    if events == [] then []
    else
      var e := events[|events| - 1];
      Inputs(events[..|events| - 1]) + if e.Offered? && e.chunk != [] then [e.chunk] else []
  }

  /** The last parameter set of a kind. */
  function Latest(inputs: seq<Bytes>, kind: int): seq<Bytes> {
    if inputs == [] then []
    else
      var c := inputs[|inputs| - 1];
      if ChunkType(c) == Some(kind) then [c] else Latest(inputs[..|inputs| - 1], kind)
  }

  function LatestSets(inputs: seq<Bytes>): seq<Bytes> {
    Latest(inputs, 32) + Latest(inputs, 33) + Latest(inputs, 34)
  }

  /** A restart at index i: the latest parameter sets, the picture there, and everything offered after it. */
  function Restart(inputs: seq<Bytes>, i: nat): seq<Bytes>
    requires i < |inputs|
  {
    LatestSets(inputs[..i]) + inputs[i..]
  }

  /**
   A decodable history: a prefix of the input, or a decodable history of the input before some access point followed
   by a prefix of the restart there.
   */
  ghost predicate Clean(inputs: seq<Bytes>, handed: seq<Bytes>)
    decreases |inputs|
  {
    || handed <= inputs
    || exists i: nat, k: nat :: i < |inputs| && k <= |handed| && RestartsAt(inputs, handed, i, k)
  }

  ghost predicate RestartsAt(inputs: seq<Bytes>, handed: seq<Bytes>, i: nat, k: nat)
    requires i < |inputs| && k <= |handed|
    decreases |inputs|, 0
  {
    IsRestart(inputs[i]) && Clean(inputs[..i], handed[..k]) && handed[k..] <= Restart(inputs, i)
  }

  /** Handed out and queued together are the whole of the current run. */
  ghost predicate InStep(inputs: seq<Bytes>, handed: seq<Bytes>, queue: seq<Bytes>) {
    || handed + queue == inputs
    || exists i: nat, k: nat :: i < |inputs| && k <= |handed| && RunsFrom(inputs, handed, queue, i, k)
  }

  ghost predicate RunsFrom(inputs: seq<Bytes>, handed: seq<Bytes>, queue: seq<Bytes>, i: nat, k: nat)
    requires i < |inputs| && k <= |handed|
  {
    IsRestart(inputs[i]) && Clean(inputs[..i], handed[..k]) && handed[k..] + queue == Restart(inputs, i)
  }

  lemma InStepIsClean(inputs: seq<Bytes>, handed: seq<Bytes>, queue: seq<Bytes>)
    requires InStep(inputs, handed, queue)
    ensures Clean(inputs, handed)
  {
    if handed + queue == inputs {
      assert handed <= inputs;
    } else {
      var i: nat, k: nat :| i < |inputs| && k <= |handed| && RunsFrom(inputs, handed, queue, i, k);
      assert RestartsAt(inputs, handed, i, k);
    }
  }

  lemma RestartGrows(inputs: seq<Bytes>, c: Bytes, i: nat)
    requires i < |inputs|
    ensures (inputs + [c])[..i] == inputs[..i]
    ensures Restart(inputs + [c], i) == Restart(inputs, i) + [c]
  {
    assert (inputs + [c])[i..] == inputs[i..] + [c];
  }

  lemma CleanGrows(inputs: seq<Bytes>, handed: seq<Bytes>, c: Bytes)
    requires Clean(inputs, handed)
    ensures Clean(inputs + [c], handed)
  {
    if handed <= inputs {
      assert handed <= inputs + [c];
    } else {
      var i: nat, k: nat :| i < |inputs| && k <= |handed| && RestartsAt(inputs, handed, i, k);
      RestartGrows(inputs, c, i);
      assert RestartsAt(inputs + [c], handed, i, k);
    }
  }

  lemma InStepGrows(inputs: seq<Bytes>, handed: seq<Bytes>, queue: seq<Bytes>, c: Bytes)
    requires InStep(inputs, handed, queue)
    ensures InStep(inputs + [c], handed, queue + [c])
  {
    if handed + queue == inputs {
      assert handed + (queue + [c]) == inputs + [c];
    } else {
      var i: nat, k: nat :| i < |inputs| && k <= |handed| && RunsFrom(inputs, handed, queue, i, k);
      RestartGrows(inputs, c, i);
      assert handed[k..] + (queue + [c]) == handed[k..] + queue + [c];
      assert RunsFrom(inputs + [c], handed, queue + [c], i, k);
    }
  }

  lemma RestartIsInStep(inputs: seq<Bytes>, handed: seq<Bytes>, c: Bytes)
    requires Clean(inputs, handed) && IsRestart(c)
    ensures InStep(inputs + [c], handed, LatestSets(inputs) + [c])
  {
    var all, i, k := inputs + [c], |inputs|, |handed|;
    assert all[..i] == inputs && all[i..] == [c];
    assert handed[..k] == handed && handed[k..] == [];
    assert RunsFrom(all, handed, LatestSets(inputs) + [c], i, k);
  }

  lemma TakenIsInStep(inputs: seq<Bytes>, handed: seq<Bytes>, queue: seq<Bytes>)
    requires InStep(inputs, handed, queue) && queue != []
    ensures InStep(inputs, handed + [queue[0]], queue[1..])
  {
    var handed' := handed + [queue[0]];
    if handed + queue == inputs {
      assert handed' + queue[1..] == handed + queue;
    } else {
      var i: nat, k: nat :| i < |inputs| && k <= |handed| && RunsFrom(inputs, handed, queue, i, k);
      assert handed'[..k] == handed[..k];
      assert handed'[k..] + queue[1..] == handed[k..] + queue;
      assert RunsFrom(inputs, handed', queue[1..], i, k);
    }
  }

  // ---------------------------------------------------------------- the pipe's cache

  function CacheAll(inputs: seq<Bytes>): ParameterSets {
    if inputs == [] then map[] else CacheSet(CacheAll(inputs[..|inputs| - 1]), inputs[|inputs| - 1])
  }

  lemma {:induction false} CachedIsLatest(inputs: seq<Bytes>, kind: int)
    requires 32 <= kind <= 34
    ensures Cached(CacheAll(inputs), kind) == Latest(inputs, kind)
  {
    if inputs != [] {
      CachedIsLatest(inputs[..|inputs| - 1], kind);
    }
  }

  lemma PreambleIsLatest(inputs: seq<Bytes>)
    ensures Preamble(CacheAll(inputs)) == LatestSets(inputs)
  {
    CachedIsLatest(inputs, 32);
    CachedIsLatest(inputs, 33);
    CachedIsLatest(inputs, 34);
  }

  lemma CacheSnoc(inputs: seq<Bytes>, c: Bytes)
    ensures CacheAll(inputs + [c]) == CacheSet(CacheAll(inputs), c)
  {
    assert (inputs + [c])[..|inputs|] == inputs;
  }

  /** A picture that restarts a decoder is not itself a parameter set. */
  lemma RestartIsNoSet(sets: ParameterSets, c: Bytes)
    requires IsRestart(c)
    ensures CacheSet(sets, c) == sets
  {
  }

  // ---------------------------------------------------------------- the trace

  ghost predicate Tracks(p: Pipe, inputs: seq<Bytes>, handed: seq<Bytes>) {
    && PipeOk(p) && p.codecSafe
    && Clean(inputs, handed)
    && (Live(p) ==> p.sets == CacheAll(inputs))
    && (Live(p) && !p.desynchronised ==> InStep(inputs, handed, p.queue))
    && p.overflows >= 0
    && (Live(p) && p.overflows == 0 ==> !p.desynchronised && handed + p.queue == inputs)
  }

  /** A chunk that meets a waiting pipe. */
  lemma ResyncTracks(p: Pipe, inputs: seq<Bytes>, handed: seq<Bytes>, c: Bytes)
    requires PipeOk(p) && p.codecSafe && Live(p) && p.desynchronised && p.overflows > 0
    requires Clean(inputs, handed) && p.sets == CacheAll(inputs + [c])
    ensures Tracks(Resync(p, c), inputs + [c], handed)
  {
    var restart := Preamble(p.sets) + [c];
    CleanGrows(inputs, handed, c);
    ResyncKeepsOk(p, c);
    ResyncSetup(p, c);
    if IsRestart(c) && !TooBig(p, restart) {
      CacheSnoc(inputs, c);
      RestartIsNoSet(CacheAll(inputs), c);
      PreambleIsLatest(inputs);
      PreambleIsShort(p.sets);
      RestartKeepsOk(p, restart);
      RestartIsInStep(inputs, handed, c);
    }
  }

  lemma OfferVideoTracks(p: Pipe, inputs: seq<Bytes>, handed: seq<Bytes>, c: Bytes)
    requires Tracks(p, inputs, handed) && Live(p)
    ensures Tracks(OfferVideo(p, c), inputs + [c], handed)
  {
    var p1 := p.(sets := CacheSet(p.sets, c));
    CacheSnoc(inputs, c);
    if p1.desynchronised {
      ResyncTracks(p1, inputs, handed, c);
    } else if FitsNow(p1, c) {
      AppendKeepsOk(p1, c);
      CleanGrows(inputs, handed, c);
      InStepGrows(inputs, handed, p.queue, c);
      assert handed + (p.queue + [c]) == handed + p.queue + [c];
    } else {
      OverflowKeepsOk(p1);
      ResyncTracks(Overflow(p1), inputs, handed, c);
    }
  }

  lemma OfferTracks(p: Pipe, inputs: seq<Bytes>, handed: seq<Bytes>, c: Bytes, launches: bool)
    requires Tracks(p, inputs, handed) && c != []
    ensures Tracks(Offer(p, c, launches), inputs + [c], handed)
  {
    CleanGrows(inputs, handed, c);
    if Live(p) && (p.started || launches) {
      OfferVideoTracks(p.(started := true), inputs, handed, c);
    }
  }

  lemma PopTracks(p: Pipe, inputs: seq<Bytes>, handed: seq<Bytes>)
    requires Tracks(p, inputs, handed) && p.queue != []
    ensures Tracks(Pop(p).0, inputs, handed + [p.queue[0]])
  {
    PopKeepsOk(p);
    TakenIsInStep(inputs, handed, p.queue);
    assert handed + [p.queue[0]] + p.queue[1..] == handed + p.queue;
    InStepIsClean(inputs, handed + [p.queue[0]], p.queue[1..]);
  }

  /**
   For any run of a codec-safe pipe, whatever its limits: what the writer has been handed is a decodable history of
   what was offered, the queue is empty while the pipe waits to resynchronise, its byte count is exact and bounded, and
   without an overflow nothing is missing.
   */
  lemma {:induction false} CleanRestarts(maxChunks: Option<int>, maxBytes: int, events: seq<Event>)
    ensures var (p, handed) := RunAll(NewPipe(maxChunks, maxBytes, true), events);
            Tracks(p, Inputs(events), handed)
    decreases |events|
  {
    var p0 := NewPipe(maxChunks, maxBytes, true);
    if events == [] {
      assert InStep([], [], []);
    } else {
      var n := |events| - 1;
      CleanRestarts(maxChunks, maxBytes, events[..n]);
      var (p, handed) := RunAll(p0, events[..n]);
      ReactTracks(p, Inputs(events[..n]), handed, events[n]);
    }
  }

  lemma ReactTracks(p: Pipe, inputs: seq<Bytes>, handed: seq<Bytes>, e: Event)
    requires Tracks(p, inputs, handed)
    ensures var (p', more) := React(p, e);
            Tracks(p', inputs + (if e.Offered? && e.chunk != [] then [e.chunk] else []), handed + more)
  {
    assert inputs + [] == inputs && handed + [] == handed;
    match e
    case Offered(chunk, launches) =>
      if chunk != [] {
        OfferTracks(p, inputs, handed, chunk, launches);
      }
    case Taken =>
      if p.queue != [] {
        PopTracks(p, inputs, handed);
      }
    case Died =>
    case Closed =>
  }

  // ---------------------------------------------------------------- audio

  ghost predicate Balanced(p: Pipe, inputs: seq<Bytes>, handed: seq<Bytes>) {
    && PipeOk(p) && !p.codecSafe && !p.desynchronised
    && |handed| + |p.queue| + p.dropped <= |inputs|
    && Total(handed) + p.queuedBytes + p.droppedBytes <= Total(inputs)
    && (Live(p) ==>
          && |handed| + |p.queue| + p.dropped == |inputs|
          && Total(handed) + p.queuedBytes + p.droppedBytes == Total(inputs))
  }

  lemma OfferBalances(p: Pipe, inputs: seq<Bytes>, handed: seq<Bytes>, c: Bytes, launches: bool)
    requires Balanced(p, inputs, handed) && c != []
    ensures Balanced(Offer(p, c, launches), inputs + [c], handed)
  {
    TotalSnoc(inputs, c);
    if Live(p) && (p.started || launches) {
      var p1 := p.(started := true);
      OfferAudioKeepsOk(p1, c);
      OfferAudioSetup(p1, c);
    }
  }

  lemma TakeBalances(p: Pipe, inputs: seq<Bytes>, handed: seq<Bytes>)
    requires Balanced(p, inputs, handed) && p.queue != []
    ensures Balanced(Pop(p).0, inputs, handed + [p.queue[0]])
  {
    PopKeepsOk(p);
    TotalSnoc(handed, p.queue[0]);
  }

  lemma ReactBalances(p: Pipe, inputs: seq<Bytes>, handed: seq<Bytes>, e: Event)
    requires Balanced(p, inputs, handed)
    ensures var (p', more) := React(p, e);
            Balanced(p', inputs + (if e.Offered? && e.chunk != [] then [e.chunk] else []), handed + more)
  {
    assert inputs + [] == inputs && handed + [] == handed;
    match e
    case Offered(chunk, launches) =>
      if chunk != [] {
        OfferBalances(p, inputs, handed, chunk, launches);
      }
    case Taken =>
      if p.queue != [] {
        TakeBalances(p, inputs, handed);
      }
    case _ =>
  }

  /**
   Over any run of an audio pipe, the chunks with the player, in the queue and counted as dropped are never more than
   were offered, and as long as the pipe is live they are exactly all of them: in chunks and in bytes.
   */
  lemma {:induction false} AudioConserved(maxChunks: Option<int>, maxBytes: int, events: seq<Event>)
    ensures var (p, handed) := RunAll(NewPipe(maxChunks, maxBytes, false), events);
            Balanced(p, Inputs(events), handed)
    decreases |events|
  {
    if events != [] {
      var n := |events| - 1;
      var (p, handed) := RunAll(NewPipe(maxChunks, maxBytes, false), events[..n]);
      AudioConserved(maxChunks, maxBytes, events[..n]);
      ReactBalances(p, Inputs(events[..n]), handed, events[n]);
    }
  }
}
