/** When a player's queue overflows. */
module PlaybackFlow {
  // Stated in sizes and counts alone, against a queue without limits, and what the counters then say
  // (nexxt_lan.py:1413-1495).

  import opened Bytes
  import opened Playback
  import opened PlaybackTrace

  // ---------------------------------------------------------------- a queue without limits

  /** The chunks offered and not yet taken, if none were ever dropped. */
  function Untaken(events: seq<Event>): seq<Bytes> {
    if events == [] then []
    else
      var q, e := Untaken(events[..|events| - 1]), events[|events| - 1];
      match e
      case Offered(chunk, _) => if chunk == [] then q else q + [chunk]
      case Taken => if q == [] then q else q[1..]
      case Died => q
      case Closed => q
  }

  /** At most so many bytes, and so many chunks if there is a limit on them. */
  predicate Within(q: seq<Bytes>, maxChunks: Option<int>, maxBytes: int) {
    q == [] || (Total(q) <= maxBytes && (maxChunks.Some? ==> |q| <= maxChunks.value))
  }

  /** At no time has more been waiting than the limits allow. */
  predicate Smooth(events: seq<Event>, maxChunks: Option<int>, maxBytes: int) {
    events == []
    || (Smooth(events[..|events| - 1], maxChunks, maxBytes) && Within(Untaken(events), maxChunks, maxBytes))
  }

  lemma {:induction false} SmoothIs(events: seq<Event>, maxChunks: Option<int>, maxBytes: int)
    ensures Smooth(events, maxChunks, maxBytes)
            <==> forall i :: 0 <= i <= |events| ==> Within(Untaken(events[..i]), maxChunks, maxBytes)
  {
    assert events[..|events|] == events;
    if events != [] {
      var before := events[..|events| - 1];
      SmoothIs(before, maxChunks, maxBytes);
      assert forall i :: 0 <= i <= |before| ==> before[..i] == events[..i];
    }
  }

  /** Whether one more chunk fits: exactly when the queue with it is within the limits. */
  lemma FitsIff(p: Pipe, chunk: Bytes)
    requires p.queuedBytes == Total(p.queue)
    ensures FitsNow(p, chunk) <==> Within(p.queue + [chunk], p.maxChunks, p.maxBytes)
  {
    TotalSnoc(p.queue, chunk);
  }

  lemma TakenWithin(q: seq<Bytes>, maxChunks: Option<int>, maxBytes: int)
    requires q != [] && Within(q, maxChunks, maxBytes)
    ensures Within(q[1..], maxChunks, maxBytes)
  {
    TotalHead(q);
  }

  // ---------------------------------------------------------------- one offer

  /** In sync, a video chunk is queued when the queue with it is within the limits, and overflows it when not. */
  lemma VideoOfferIs(p: Pipe, c: Bytes)
    requires PipeOk(p) && Live(p) && p.codecSafe && !p.desynchronised
    ensures var p' := OfferVideo(p, c);
            && (Within(p.queue + [c], p.maxChunks, p.maxBytes) ==>
                  p'.queue == p.queue + [c] && p'.overflows == p.overflows && p'.dropped == p.dropped
                  && !p'.desynchronised)
            && (!Within(p.queue + [c], p.maxChunks, p.maxBytes) ==> p'.overflows > p.overflows)
  {
    var p1 := p.(sets := CacheSet(p.sets, c));
    FitsIff(p1, c);
    if !FitsNow(p1, c) {
      ResyncSetup(Overflow(p1), c);
    }
  }

  lemma SuffixTotal(q: seq<Bytes>, k: nat, c: Bytes)
    requires k <= |q|
    ensures (q + [c])[k..] == q[k..] + [c] && Total(q[k..] + [c]) >= |c|
  {
    TotalSnoc(q[k..], c);
  }

  /**
   An audio chunk that fits by itself is queued, and behind it as many of the newest others as fit with it: the oldest k
   are dropped, and no fewer would do. One that does not fit takes all others with it, and counts as an overflow.
   */
  lemma AudioOfferIs(p: Pipe, c: Bytes) returns (k: nat)
    requires PipeOk(p) && Live(p) && !p.codecSafe && !p.desynchronised
    ensures var p', all := OfferAudio(p, c), p.queue + [c];
            && (Within([c], p.maxChunks, p.maxBytes) ==>
                  && k <= |p.queue| && p'.queue == all[k..] && Within(p'.queue, p.maxChunks, p.maxBytes)
                  && (forall j :: 0 <= j < k ==> !Within(all[j..], p.maxChunks, p.maxBytes))
                  && p'.dropped == p.dropped + k && p'.overflows == p.overflows)
            && (!Within([c], p.maxChunks, p.maxBytes) ==>
                  p'.queue == [] && p'.dropped == p.dropped + |all| && p'.overflows == p.overflows + 1)
  {
    k := EvictIs(p, c);
    TotalOne(c);
    forall j | 0 <= j <= k
      ensures FitsNow(Evicted(p, j), c) <==> Within((p.queue + [c])[j..], p.maxChunks, p.maxBytes)
    {
      EvictedKeepsOk(p, j);
      FitsIff(Evicted(p, j), c);
      SuffixTotal(p.queue, j, c);
    }
    SuffixTotal(p.queue, k, c);
    if k == |p.queue| {
      assert (p.queue + [c])[k..] == [c];
    }
  }

  // ---------------------------------------------------------------- the pipe against it

  /** As long as nothing has overflowed or been dropped, the pipe is that queue. */
  ghost predicate Flows(p: Pipe, events: seq<Event>, lost: int, maxChunks: Option<int>, maxBytes: int) {
    && p.maxChunks == maxChunks && p.maxBytes == maxBytes && lost >= 0
    && (Live(p) ==> (lost == 0 <==> Smooth(events, maxChunks, maxBytes)))
    && (Live(p) && lost == 0 ==> p.queue == Untaken(events) && !p.desynchronised)
  }

  lemma UntakenSnoc(events: seq<Event>)
    requires events != []
    ensures var q, e := Untaken(events[..|events| - 1]), events[|events| - 1];
            Untaken(events)
            == if e.Offered? && e.chunk != [] then q + [e.chunk] else if e.Taken? && q != [] then q[1..] else q
  {
  }

  lemma StaysRough(events: seq<Event>, maxChunks: Option<int>, maxBytes: int)
    requires events != [] && !Smooth(events[..|events| - 1], maxChunks, maxBytes)
    ensures !Smooth(events, maxChunks, maxBytes)
  {
  }

  /** Nothing is waiting that was not, or less is. */
  lemma NoMoreWaiting(events: seq<Event>, maxChunks: Option<int>, maxBytes: int)
    requires events != [] && Smooth(events[..|events| - 1], maxChunks, maxBytes)
    requires var e := events[|events| - 1]; e.Offered? ==> e.chunk == []
    ensures Smooth(events, maxChunks, maxBytes)
  {
    var q, e := Untaken(events[..|events| - 1]), events[|events| - 1];
    UntakenSnoc(events);
    SmoothNow(events[..|events| - 1], maxChunks, maxBytes);
    if e.Taken? && q != [] {
      TakenWithin(q, maxChunks, maxBytes);
    }
  }

  lemma SmoothNow(events: seq<Event>, maxChunks: Option<int>, maxBytes: int)
    requires Smooth(events, maxChunks, maxBytes)
    ensures Within(Untaken(events), maxChunks, maxBytes)
  {
  }

  /** Anything but an offer keeps the pipe that queue. */
  lemma FlowsQuietly(p: Pipe, events: seq<Event>, lost: int, maxChunks: Option<int>, maxBytes: int)
    requires events != [] && Flows(p, events[..|events| - 1], lost, maxChunks, maxBytes)
    requires var e := events[|events| - 1]; e.Offered? ==> e.chunk == []
    ensures Flows(PlaybackTrace.React(p, events[|events| - 1]).0, events, lost, maxChunks, maxBytes)
  {
    UntakenSnoc(events);
    if Smooth(events[..|events| - 1], maxChunks, maxBytes) {
      NoMoreWaiting(events, maxChunks, maxBytes);
    } else {
      StaysRough(events, maxChunks, maxBytes);
    }
  }

  lemma QuietSetup(p: Pipe, e: Event)
    requires PipeOk(p) && (e.Offered? ==> e.chunk == [])
    ensures var p' := PlaybackTrace.React(p, e).0;
            && PipeOk(p') && p'.codecSafe == p.codecSafe && p'.overflows == p.overflows && p'.dropped == p.dropped
            && p'.desynchronised == p.desynchronised && (Live(p') ==> Live(p))
  {
    PopKeepsOk(p);
  }

  // ---------------------------------------------------------------- video

  ghost predicate VideoFlow(p: Pipe, events: seq<Event>, maxChunks: Option<int>, maxBytes: int) {
    && PipeOk(p) && p.codecSafe
    && Flows(p, events, p.overflows, maxChunks, maxBytes) && (p.overflows == 0 ==> p.dropped == 0)
  }

  lemma VideoFlowsOffer(p: Pipe, events: seq<Event>, maxChunks: Option<int>, maxBytes: int)
    requires events != [] && VideoFlow(p, events[..|events| - 1], maxChunks, maxBytes)
    requires var e := events[|events| - 1]; e.Offered? && e.chunk != []
    ensures var e := events[|events| - 1]; VideoFlow(Offer(p, e.chunk, e.launches), events, maxChunks, maxBytes)
  {
    var e := events[|events| - 1];
    OfferKeepsOk(p, e.chunk, e.launches);
    UntakenSnoc(events);
    if Live(p) && (p.started || e.launches) {
      var p1 := p.(started := true);
      OfferVideoSetup(p1, e.chunk);
      if p.overflows == 0 {
        VideoOfferIs(p1, e.chunk);
      } else {
        StaysRough(events, maxChunks, maxBytes);
      }
    }
  }

  lemma VideoFlowsStep(p: Pipe, events: seq<Event>, maxChunks: Option<int>, maxBytes: int)
    requires events != [] && VideoFlow(p, events[..|events| - 1], maxChunks, maxBytes)
    ensures VideoFlow(PlaybackTrace.React(p, events[|events| - 1]).0, events, maxChunks, maxBytes)
  {
    var e := events[|events| - 1];
    UntakenSnoc(events);
    if e.Offered? && e.chunk != [] {
      VideoFlowsOffer(p, events, maxChunks, maxBytes);
    } else {
      FlowsQuietly(p, events, p.overflows, maxChunks, maxBytes);
      QuietSetup(p, e);
    }
  }

  /**
   A live video pipe has never overflowed if and only if at no time more bytes were offered and not yet taken than
   `max_bytes`, nor more chunks than `max_chunks` if there is such a limit; and then nothing was dropped, and what the
   writer has not been handed is all in the queue.
   */
  lemma {:induction false} VideoFlows(maxChunks: Option<int>, maxBytes: int, events: seq<Event>)
    ensures VideoFlow(RunAll(NewPipe(maxChunks, maxBytes, true), events).0, events, maxChunks, maxBytes)
    decreases |events|
  {
    if events != [] {
      VideoFlows(maxChunks, maxBytes, events[..|events| - 1]);
      VideoFlowsStep(RunAll(NewPipe(maxChunks, maxBytes, true), events[..|events| - 1]).0, events, maxChunks, maxBytes);
    }
  }

  // ---------------------------------------------------------------- audio

  /** How many of the chunks offered do not fit even by themselves. */
  function Oversized(events: seq<Event>, maxChunks: Option<int>, maxBytes: int): nat {
    if events == [] then 0
    else
      var e := events[|events| - 1];
      Oversized(events[..|events| - 1], maxChunks, maxBytes)
      + if e.Offered? && e.chunk != [] && !Within([e.chunk], maxChunks, maxBytes) then 1 else 0
  }

  ghost predicate AudioFlow(p: Pipe, events: seq<Event>, maxChunks: Option<int>, maxBytes: int) {
    && PipeOk(p) && !p.codecSafe && !p.desynchronised
    && Flows(p, events, p.dropped, maxChunks, maxBytes)
    && (Live(p) ==> p.overflows == Oversized(events, maxChunks, maxBytes))
  }

  lemma AudioFlowsOffer(p: Pipe, events: seq<Event>, maxChunks: Option<int>, maxBytes: int)
    requires events != [] && AudioFlow(p, events[..|events| - 1], maxChunks, maxBytes)
    requires var e := events[|events| - 1]; e.Offered? && e.chunk != []
    ensures var e := events[|events| - 1]; AudioFlow(Offer(p, e.chunk, e.launches), events, maxChunks, maxBytes)
  {
    var e := events[|events| - 1];
    OfferKeepsOk(p, e.chunk, e.launches);
    UntakenSnoc(events);
    if Live(p) && (p.started || e.launches) {
      OfferAudioSetup(p.(started := true), e.chunk);
      AudioOfferCounts(p.(started := true), e.chunk);
      if p.dropped != 0 {
        StaysRough(events, maxChunks, maxBytes);
      }
    }
  }

  lemma AudioOfferCounts(p: Pipe, c: Bytes)
    requires PipeOk(p) && Live(p) && !p.codecSafe && !p.desynchronised
    ensures var p', fits := OfferAudio(p, c), Within(p.queue + [c], p.maxChunks, p.maxBytes);
            && (fits ==> p'.queue == p.queue + [c] && p'.dropped == p.dropped) && (!fits ==> p'.dropped > p.dropped)
            && p'.overflows == p.overflows + (if Within([c], p.maxChunks, p.maxBytes) then 0 else 1)
  {
    var k := AudioOfferIs(p, c);
    assert (p.queue + [c])[0..] == p.queue + [c];
    WholeIsWorse(p.queue, c, p.maxChunks, p.maxBytes);
  }

  lemma WholeIsWorse(q: seq<Bytes>, c: Bytes, maxChunks: Option<int>, maxBytes: int)
    ensures Within(q + [c], maxChunks, maxBytes) ==> Within([c], maxChunks, maxBytes)
  {
    TotalSnoc(q, c);
    TotalOne(c);
  }

  lemma AudioFlowsStep(p: Pipe, events: seq<Event>, maxChunks: Option<int>, maxBytes: int)
    requires events != [] && AudioFlow(p, events[..|events| - 1], maxChunks, maxBytes)
    ensures AudioFlow(PlaybackTrace.React(p, events[|events| - 1]).0, events, maxChunks, maxBytes)
  {
    var e := events[|events| - 1];
    UntakenSnoc(events);
    if e.Offered? && e.chunk != [] {
      AudioFlowsOffer(p, events, maxChunks, maxBytes);
    } else {
      FlowsQuietly(p, events, p.dropped, maxChunks, maxBytes);
      QuietSetup(p, e);
    }
  }

  /**
   A live audio pipe has dropped nothing if and only if at no time more bytes or chunks were waiting than the limits
   allow, and then it holds all of them; and it has counted as overflows exactly the chunks that fit in no queue.
   */
  lemma {:induction false} AudioFlows(maxChunks: Option<int>, maxBytes: int, events: seq<Event>)
    ensures AudioFlow(RunAll(NewPipe(maxChunks, maxBytes, false), events).0, events, maxChunks, maxBytes)
    decreases |events|
  {
    if events != [] {
      AudioFlows(maxChunks, maxBytes, events[..|events| - 1]);
      var p := RunAll(NewPipe(maxChunks, maxBytes, false), events[..|events| - 1]).0;
      AudioFlowsStep(p, events, maxChunks, maxBytes);
    }
  }

  // ---------------------------------------------------------------- starting again

  /** By the first byte of its NAL, a chunk is a picture to restart from at 38 to 43, a parameter set at 64 to 69. */
  lemma KindsByByte(nal: Bytes)
    requires nal != []
    ensures IsRestart([0, 0, 0, 1] + nal) <==> 38 <= nal[0] % 128 < 44
    ensures IsSet([0, 0, 0, 1] + nal) <==> 64 <= nal[0] % 128 < 70
  {
    var chunk := [0, 0, 0, 1] + nal;
    assert chunk[..4] == [0, 0, 0, 1] && chunk[4] == nal[0];
    KindRanges(nal[0]);
  }

  /** Without a start code the first byte of the chunk counts, and with four bytes or fewer none. */
  lemma KindsWithout(chunk: Bytes)
    requires chunk[..Min(4, |chunk|)] != [0, 0, 0, 1]
    ensures IsRestart(chunk) <==> |chunk| >= 5 && 38 <= chunk[0] % 128 < 44
    ensures IsSet(chunk) <==> |chunk| >= 5 && 64 <= chunk[0] % 128 < 70
  {
    if |chunk| >= 5 {
      KindRanges(chunk[0]);
    }
  }

  /** A player that cannot be started is given up at the first chunk: nothing is ever queued. */
  lemma FailedLaunch(maxChunks: Option<int>, maxBytes: int, codecSafe: bool, c: Bytes, more: Bytes, launches: bool)
    requires c != []
    ensures var p := Offer(NewPipe(maxChunks, maxBytes, codecSafe), c, false);
            !Live(p) && p.queue == [] && Offer(p, more, launches) == p && Pop(p).1 == None
  {
  }

  lemma KindRanges(b: byte)
    ensures 19 <= b / 2 % 64 <= 21 <==> 38 <= b % 128 < 44
    ensures 32 <= b / 2 % 64 <= 34 <==> 64 <= b % 128 < 70
  {
    var low, high := b % 128, b / 128;
    assert b == 128 * high + low && b / 2 == 64 * high + low / 2;
    assert b / 2 % 64 == low / 2;
  }

  /**
   In any run, a live pipe that waits for a restart goes on with a chunk if and only if that is such a picture and fits
   the byte limit together with the latest parameter sets offered; and then it holds exactly those.
   */
  lemma ResumesIff(maxChunks: Option<int>, maxBytes: int, events: seq<Event>, c: Bytes, launches: bool)
    requires var p := RunAll(NewPipe(maxChunks, maxBytes, true), events).0;
             Live(p) && p.desynchronised && c != [] && (p.started || launches)
    ensures var p' := Offer(RunAll(NewPipe(maxChunks, maxBytes, true), events).0, c, launches);
            var restart := LatestSets(Inputs(events)) + [c];
            && (!p'.desynchronised <==> IsRestart(c) && Total(restart) <= maxBytes)
            && p'.queue == if p'.desynchronised then [] else restart
  {
    var (p, handed) := RunAll(NewPipe(maxChunks, maxBytes, true), events);
    CleanRestarts(maxChunks, maxBytes, events);
    VideoFlows(maxChunks, maxBytes, events);
    var p1 := p.(started := true);
    PreambleIsLatest(Inputs(events));
    ResumeOne(p1.(sets := CacheSet(p1.sets, c)), c);
    if IsRestart(c) {
      RestartIsNoSet(p1.sets, c);
    }
  }

  lemma ResumeOne(p: Pipe, c: Bytes)
    requires PipeOk(p) && p.desynchronised && Live(p) && p.codecSafe
    ensures var p' := Resync(p, c);
            && (!p'.desynchronised <==> IsRestart(c) && Total(Preamble(p.sets) + [c]) <= p.maxBytes)
            && p'.queue == if p'.desynchronised then [] else Preamble(p.sets) + [c]
  {
    var restart := Preamble(p.sets) + [c];
    if IsRestart(c) && !TooBig(p, restart) {
      RestartShape(p, restart);
    }
  }

  // ---------------------------------------------------------------- what the counters say

  /** A video pipe has resumed as often as it has overflowed, unless it is waiting now. */
  predicate Paired(p: Pipe) {
    p.overflows == p.resyncs + (if p.desynchronised then 1 else 0)
  }

  lemma OfferPaired(p: Pipe, c: Bytes)
    requires Paired(p)
    ensures Paired(OfferVideo(p, c))
  {
    var p1 := p.(sets := CacheSet(p.sets, c));
    if p1.desynchronised {
      ResyncPaired(p1, c);
    } else if !FitsNow(p1, c) {
      ResyncPaired(Overflow(p1), c);
    }
  }

  /** The pipe that goes on from a restart. */
  function Restarted(p: Pipe, restart: seq<Bytes>): Pipe {
    var all := AppendAll(p, restart);
    all.(desynchronised := false, resyncs := all.resyncs + 1)
  }

  lemma ResyncRestarts(p: Pipe, c: Bytes)
    ensures var restart := Preamble(p.sets) + [c];
            IsRestart(c) && !TooBig(p, restart) ==> Resync(p, c) == Restarted(p, restart)
  {
  }

  lemma ResyncPaired(p: Pipe, c: Bytes)
    requires Paired(p) && p.desynchronised
    ensures Paired(Resync(p, c))
  {
    var restart := Preamble(p.sets) + [c];
    if IsRestart(c) && !TooBig(p, restart) {
      ResyncRestarts(p, c);
      RestartedPaired(p, restart);
    }
  }

  lemma RestartedPaired(p: Pipe, restart: seq<Bytes>)
    requires Paired(p) && p.desynchronised
    ensures Paired(Restarted(p, restart))
  {
    AppendAllCounts(p, restart);
    AppendAllSetup(p, restart);
  }

  lemma {:induction false} AppendAllCounts(p: Pipe, chunks: seq<Bytes>)
    ensures var p' := AppendAll(p, chunks);
            p'.overflows == p.overflows && p'.resyncs == p.resyncs && p'.dropped == p.dropped
            && p'.droppedBytes == p.droppedBytes
  {
    if chunks != [] {
      AppendAllCounts(p, chunks[..|chunks| - 1]);
    }
  }

  lemma {:induction false} ResyncsCount(maxChunks: Option<int>, maxBytes: int, events: seq<Event>)
    ensures var p := RunAll(NewPipe(maxChunks, maxBytes, true), events).0; p.codecSafe && Paired(p)
    decreases |events|
  {
    if events != [] {
      var e := events[|events| - 1];
      ResyncsCount(maxChunks, maxBytes, events[..|events| - 1]);
      var p := RunAll(NewPipe(maxChunks, maxBytes, true), events[..|events| - 1]).0;
      if e.Offered? && e.chunk != [] && Live(p) && (p.started || e.launches) {
        OfferPaired(p.(started := true), e.chunk);
        OfferVideoSetup(p.(started := true), e.chunk);
      }
    }
  }

  /**
   How many chunks more than itself an offer makes the pipe account for: the cached sets when it is a picture to restart
   from, one less when it is a parameter set that is only cached, in either case while waiting.
   */
  function Extra(p: Pipe, c: Bytes): int {
    if !p.desynchronised && Within(p.queue + [c], p.maxChunks, p.maxBytes) then 0
    else if IsRestart(c) then |Preamble(p.sets)|
    else if IsSet(c) then -1
    else 0
  }

  function ExtraBytes(p: Pipe, c: Bytes): int {
    if !p.desynchronised && Within(p.queue + [c], p.maxChunks, p.maxBytes) then 0
    else if IsRestart(c) then Total(Preamble(p.sets))
    else if IsSet(c) then -|c|
    else 0
  }

  lemma ResyncAccounts(p: Pipe, c: Bytes)
    requires PipeOk(p) && p.desynchronised && Live(p) && p.codecSafe
    ensures var p' := Resync(p, c);
            && |p'.queue| + p'.dropped
               == p.dropped + 1 + (if IsRestart(c) then |Preamble(p.sets)| else if IsSet(c) then -1 else 0)
            && p'.queuedBytes + p'.droppedBytes
               == p.droppedBytes + |c|
                  + (if IsRestart(c) then Total(Preamble(p.sets)) else if IsSet(c) then -|c| else 0)
  {
    var restart := Preamble(p.sets) + [c];
    TotalSnoc(Preamble(p.sets), c);
    TotalOne(c);
    if IsRestart(c) && !TooBig(p, restart) {
      RestartShape(p, restart);
      AppendAllCounts(p, restart);
    }
  }

  lemma OfferAccounts(p: Pipe, c: Bytes)
    requires PipeOk(p) && Live(p) && p.codecSafe
    ensures var p' := OfferVideo(p, c);
            && |p'.queue| + p'.dropped == |p.queue| + p.dropped + 1 + Extra(p, c)
            && p'.queuedBytes + p'.droppedBytes == p.queuedBytes + p.droppedBytes + |c| + ExtraBytes(p, c)
  {
    var p1 := p.(sets := CacheSet(p.sets, c));
    FitsIff(p1, c);
    if IsRestart(c) {
      RestartIsNoSet(p.sets, c);
    }
    if p1.desynchronised {
      ResyncAccounts(p1, c);
    } else if FitsNow(p1, c) {
      AppendKeepsOk(p1, c);
    } else {
      OverflowKeepsOk(p1);
      ResyncAccounts(Overflow(p1), c);
    }
  }

  /** The sums of these over a run, in chunks and in bytes. */
  function Extras(p0: Pipe, events: seq<Event>): (int, int) {
    if events == [] then (0, 0)
    else
      var e := events[|events| - 1];
      var p, (count, bytes) := RunAll(p0, events[..|events| - 1]).0, Extras(p0, events[..|events| - 1]);
      if e.Offered? && e.chunk != [] then (count + Extra(p, e.chunk), bytes + ExtraBytes(p, e.chunk))
      else (count, bytes)
  }

  /** The chunks with the player, in the queue and counted as dropped are those offered and so many more. */
  predicate Accounts(p: Pipe, handed: seq<Bytes>, inputs: seq<Bytes>, count: int, bytes: int) {
    && |handed| + |p.queue| + p.dropped == |inputs| + count
    && Total(handed) + p.queuedBytes + p.droppedBytes == Total(inputs) + bytes
  }

  lemma EventAccounts(p: Pipe, handed: seq<Bytes>, inputs: seq<Bytes>, count: int, bytes: int, e: Event)
    requires PipeOk(p) && p.codecSafe && (Live(p) ==> Accounts(p, handed, inputs, count, bytes))
    ensures var (p', more) := PlaybackTrace.React(p, e);
            var offer := e.Offered? && e.chunk != [];
            Live(p') ==> Accounts(p', handed + more, inputs + (if offer then [e.chunk] else []),
                                  count + (if offer then Extra(p, e.chunk) else 0),
                                  bytes + (if offer then ExtraBytes(p, e.chunk) else 0))
  {
    assert inputs + [] == inputs && handed + [] == handed;
    match e
    case Offered(chunk, launches) =>
      if chunk != [] {
        TotalSnoc(inputs, chunk);
        OfferAccountsFor(p, chunk, launches);
      }
    case Taken =>
      if p.queue != [] {
        TotalSnoc(handed, p.queue[0]);
      }
    case Died =>
    case Closed =>
  }

  /**
   Every chunk offered to a live video pipe is with the player, in the queue or counted as dropped, but for the
   parameter sets: one that comes while the pipe waits is only cached, and every restart has copies of those cached.
   */
  lemma {:induction false} VideoConserved(maxChunks: Option<int>, maxBytes: int, events: seq<Event>)
    ensures var p0 := NewPipe(maxChunks, maxBytes, true);
            var (p, handed) := RunAll(p0, events);
            var (count, bytes) := Extras(p0, events);
            Live(p) ==> Accounts(p, handed, Inputs(events), count, bytes)
    decreases |events|
  {
    if events != [] {
      var p0, e, before := NewPipe(maxChunks, maxBytes, true), events[|events| - 1], events[..|events| - 1];
      var (p, handed) := RunAll(p0, before);
      VideoConserved(maxChunks, maxBytes, before);
      VideoFlows(maxChunks, maxBytes, before);
      EventAccounts(p, handed, Inputs(before), Extras(p0, before).0, Extras(p0, before).1, e);
    }
  }

  lemma OfferAccountsFor(p: Pipe, c: Bytes, launches: bool)
    requires PipeOk(p) && p.codecSafe && c != []
    ensures var p' := Offer(p, c, launches);
            Live(p') ==>
              && Live(p)
              && |p'.queue| + p'.dropped == |p.queue| + p.dropped + 1 + Extra(p, c)
              && p'.queuedBytes + p'.droppedBytes == p.queuedBytes + p.droppedBytes + |c| + ExtraBytes(p, c)
  {
    if Live(p) && (p.started || launches) {
      OfferAccounts(p.(started := true), c);
    }
  }

  /** The most chunks and bytes that are in the queue after any event. */
  function Most(p0: Pipe, events: seq<Event>): (int, int) {
    if events == [] then (0, 0)
    else
      var p, (chunks, bytes) := RunAll(p0, events).0, Most(p0, events[..|events| - 1]);
      (Max(chunks, |p.queue|), Max(bytes, p.queuedBytes))
  }

  predicate PeakStep(p: Pipe, p': Pipe) {
    p'.peakChunks == Max(p.peakChunks, |p'.queue|) && p'.peakBytes == Max(p.peakBytes, p'.queuedBytes)
  }

  lemma {:induction false} AppendAllPeaks(p: Pipe, chunks: seq<Bytes>)
    requires |p.queue| <= p.peakChunks && p.queuedBytes <= p.peakBytes
    ensures PeakStep(p, AppendAll(p, chunks))
    ensures |AppendAll(p, chunks).queue| >= |p.queue| && AppendAll(p, chunks).queuedBytes >= p.queuedBytes
  {
    if chunks != [] {
      AppendAllPeaks(p, chunks[..|chunks| - 1]);
    }
  }

  lemma ResyncPeaks(p: Pipe, c: Bytes)
    requires p.queue == [] && p.queuedBytes == 0 && 0 <= p.peakChunks && 0 <= p.peakBytes
    ensures PeakStep(p, Resync(p, c))
  {
    var restart := Preamble(p.sets) + [c];
    if IsRestart(c) && !TooBig(p, restart) {
      ResyncRestarts(p, c);
      RestartedPeaks(p, restart);
    }
  }

  lemma RestartedPeaks(p: Pipe, restart: seq<Bytes>)
    requires p.queue == [] && p.queuedBytes == 0 && 0 <= p.peakChunks && 0 <= p.peakBytes
    ensures PeakStep(p, Restarted(p, restart))
  {
    AppendAllPeaks(p, restart);
  }

  lemma OfferPeaks(p: Pipe, c: Bytes)
    requires PipeOk(p) && Live(p) && (!p.codecSafe ==> !p.desynchronised)
    ensures PeakStep(p, if p.codecSafe then OfferVideo(p, c) else OfferAudio(p, c))
  {
    var p1 := p.(sets := CacheSet(p.sets, c));
    if !p.codecSafe {
      var k := EvictIs(p, c);
      EvictedKeepsOk(p, k);
    } else if p1.desynchronised {
      ResyncPeaks(p1, c);
    } else if !FitsNow(p1, c) {
      ResyncPeaks(Overflow(p1), c);
    }
  }

  /** The two peaks are exactly the most that was ever in the queue. */
  lemma {:induction false} PeaksAreReached(maxChunks: Option<int>, maxBytes: int, codecSafe: bool, events: seq<Event>)
    ensures var p0 := NewPipe(maxChunks, maxBytes, codecSafe);
            var p := RunAll(p0, events).0;
            PipeOk(p) && (!p.codecSafe ==> !p.desynchronised) && (p.peakChunks, p.peakBytes) == Most(p0, events)
    decreases |events|
  {
    if events != [] {
      var e, before := events[|events| - 1], events[..|events| - 1];
      var p := RunAll(NewPipe(maxChunks, maxBytes, codecSafe), before).0;
      PeaksAreReached(maxChunks, maxBytes, codecSafe, before);
      EventPeaks(p, e);
    }
  }

  lemma EventPeaks(p: Pipe, e: Event)
    requires PipeOk(p) && (!p.codecSafe ==> !p.desynchronised)
    ensures var p' := PlaybackTrace.React(p, e).0;
            PeakStep(p, p') && PipeOk(p') && (!p'.codecSafe ==> !p'.desynchronised)
  {
    match e
    case Offered(chunk, launches) =>
      OfferKeepsOk(p, chunk, launches);
      if chunk != [] && Live(p) && (p.started || launches) {
        OfferPeaks(p.(started := true), chunk);
      }
    case Taken => PopKeepsOk(p);
    case Died =>
    case Closed =>
  }
}
