/** What a client sees from its PLAY on. */
module LateJoin {
  // Nothing before the first random access point, then the latest cached parameter sets, then that access point and
  // every later NAL (nexxt/rtsp.py:250-258, 289-303, 495-506).

  import opened Bytes
  import opened Hevc
  import opened Rtp
  import opened HevcStream
  import opened VideoClock
  import opened Rtsp

  /** One client while its publication consumes chunks. */
  function Watch(v: Viewer, sets: ParameterSets, chunks: seq<VideoChunk>): (v': Viewer)
    requires TrackOk(v.track) && TypedSets(sets) && Typed(chunks)
    ensures TrackOk(v'.track)
    decreases |chunks|
  {
    if chunks == [] then v
    else
      var sets' := Cache(sets, chunks[0]);
      Watch(Show(v, sets', chunks[0]), sets', chunks[1..])
  }

  /** The publication's cache after a history of chunks. */
  function CacheAll(sets: ParameterSets, chunks: seq<VideoChunk>): (sets': ParameterSets)
    requires Typed(chunks)
    ensures TypedSets(sets) ==> TypedSets(sets')
    decreases |chunks|
  {
    if chunks == [] then sets else CacheAll(Cache(sets, chunks[0]), chunks[1..])
  }

  // ---------------------------------------------------------------- what should be seen

  /** The last chunk of a type in a history. */
  function Latest(history: seq<VideoChunk>, kind: int): (c: Option<VideoChunk>)
    requires Typed(history)
    ensures c.Some? ==> HasType(c.value)
  {
    if history == [] then None
    else if NalType(history[|history| - 1]) == kind then Some(history[|history| - 1])
    else Latest(history[..|history| - 1], kind)
  }

  function LatestSets(history: seq<VideoChunk>): (sets: seq<VideoChunk>)
    requires Typed(history)
    ensures Typed(sets)
  {
    OneOrNone(Latest(history, 32)) + OneOrNone(Latest(history, 33)) + OneOrNone(Latest(history, 34))
  }

  function OneOrNone(c: Option<VideoChunk>): seq<VideoChunk> { if c.Some? then [c.value] else [] }

  /** The index of the first random access point, or the length when there is none. */
  function FirstIrap(chunks: seq<VideoChunk>): (i: nat)
    requires Typed(chunks)
    ensures i <= |chunks|
    ensures i < |chunks| ==> IsIrap(chunks[i])
    ensures forall k :: 0 <= k < i ==> !IsIrap(chunks[k])
  {
    if chunks == [] || IsIrap(chunks[0]) then 0 else 1 + FirstIrap(chunks[1..])
  }

  /** The chunks a client that joined between two stretches of a stream should be sent. */
  function Joined(before: seq<VideoChunk>, after: seq<VideoChunk>): (stream: seq<VideoChunk>)
    requires Typed(before) && Typed(after)
    ensures Typed(stream)
  {
    var i := FirstIrap(after);
    if i == |after| then [] else LatestSets(before + after[..i]) + after[i..]
  }

  function Nals(chunks: seq<VideoChunk>): (n: seq<Bytes>)
    ensures |n| == |chunks| && forall i :: 0 <= i < |chunks| ==> n[i] == Payload(chunks[i])
  {
    seq(|chunks|, i requires 0 <= i < |chunks| => Payload(chunks[i]))
  }

  /** The payloads a receiver takes out of the packets. */
  function Unpacked(packets: seq<Bytes>): seq<Bytes> {
    if packets == [] then []
    else
      var p := Decode(packets[0]);
      (if p.Some? then [p.value.payload] else []) + Unpacked(packets[1..])
  }

  // ---------------------------------------------------------------- the cache

  lemma {:induction false} CacheIsLatest(history: seq<VideoChunk>, kind: int)
    requires Typed(history) && 32 <= kind <= 34
    ensures var sets := CacheAll(map[], history);
            Latest(history, kind) == if kind in sets then Some(sets[kind]) else None
    decreases |history|
  {
    if history != [] {
      var n := |history| - 1;
      CacheIsLatest(history[..n], kind);
      CacheSnoc(map[], history[..n], history[n]);
      assert history == history[..n] + [history[n]];
    }
  }

  lemma {:induction false} CacheSnoc(sets: ParameterSets, chunks: seq<VideoChunk>, chunk: VideoChunk)
    requires Typed(chunks) && HasType(chunk)
    ensures CacheAll(sets, chunks + [chunk]) == Cache(CacheAll(sets, chunks), chunk)
    decreases |chunks|
  {
    if chunks == [] {
      assert chunks + [chunk] == [chunk] && [chunk][1..] == [];
    } else {
      assert (chunks + [chunk])[1..] == chunks[1..] + [chunk];
      CacheSnoc(Cache(sets, chunks[0]), chunks[1..], chunk);
    }
  }

  lemma PreambleIsLatest(history: seq<VideoChunk>)
    requires Typed(history)
    ensures Preamble(CacheAll(map[], history)) == LatestSets(history)
  {
    CacheIsLatest(history, 32);
    CacheIsLatest(history, 33);
    CacheIsLatest(history, 34);
  }

  // ---------------------------------------------------------------- what is sent

  lemma {:induction false} SendChunksAppend(v: Viewer, xs: seq<VideoChunk>, ys: seq<VideoChunk>)
    requires TrackOk(v.track) && Typed(xs) && Typed(ys)
    ensures SendChunks(v, xs + ys) == SendChunks(SendChunks(v, xs), ys)
    decreases |xs|
  {
    if xs == [] {
      assert xs + ys == ys;
    } else {
      assert (xs + ys)[1..] == xs[1..] + ys;
      HevcPacketsOk(v.track, xs[0], MTU);
      SendChunksAppend(SendChunk(v, xs[0]), xs[1..], ys);
    }
  }

  lemma {:induction false} SendChunksKeepsFlags(v: Viewer, chunks: seq<VideoChunk>)
    requires TrackOk(v.track) && Typed(chunks)
    ensures var v' := SendChunks(v, chunks);
            v'.playing == v.playing && v'.waiting == v.waiting && v'.hasVideo == v.hasVideo
    decreases |chunks|
  {
    if chunks != [] {
      HevcPacketsOk(v.track, chunks[0], MTU);
      SendChunksKeepsFlags(SendChunk(v, chunks[0]), chunks[1..]);
    }
  }

  lemma ShowOn(v: Viewer, sets: ParameterSets, chunk: VideoChunk)
    requires TrackOk(v.track) && TypedSets(sets) && HasType(chunk)
    requires v.playing && v.hasVideo && !v.waiting
    ensures Show(v, sets, chunk) == SendChunk(v, chunk)
  {
    assert v.(waiting := false) == v;
    SendChunksSnoc(v, [], chunk);
    assert [] + [chunk] == [chunk];
  }

  lemma ShowFirst(v: Viewer, sets: ParameterSets, chunk: VideoChunk)
    requires TrackOk(v.track) && TypedSets(sets) && HasType(chunk) && IsIrap(chunk)
    requires v.playing && v.hasVideo && v.waiting
    ensures Show(v, sets, chunk) == SendChunks(v.(waiting := false), Preamble(sets) + [chunk])
  {
  }

  lemma ShowNothing(v: Viewer, sets: ParameterSets, chunk: VideoChunk)
    requires TrackOk(v.track) && TypedSets(sets) && HasType(chunk) && !IsIrap(chunk)
    requires v.playing && v.hasVideo && v.waiting
    ensures Show(v, sets, chunk) == v
  {
  }

  /** A client that is past its first access point is sent everything. */
  lemma {:induction false} WatchOn(v: Viewer, sets: ParameterSets, chunks: seq<VideoChunk>)
    requires TrackOk(v.track) && TypedSets(sets) && Typed(chunks)
    requires v.playing && v.hasVideo && !v.waiting
    ensures Watch(v, sets, chunks) == SendChunks(v, chunks)
    decreases |chunks|
  {
    if chunks != [] {
      ShowOn(v, Cache(sets, chunks[0]), chunks[0]);
      HevcPacketsOk(v.track, chunks[0], MTU);
      WatchOn(SendChunk(v, chunks[0]), Cache(sets, chunks[0]), chunks[1..]);
    }
  }

  /** What a waiting client is sent from an access point on. */
  lemma WatchFromIrap(v: Viewer, sets: ParameterSets, chunks: seq<VideoChunk>)
    requires TrackOk(v.track) && TypedSets(sets) && Typed(chunks) && chunks != [] && IsIrap(chunks[0])
    requires v.playing && v.hasVideo && v.waiting
    ensures Watch(v, sets, chunks) == SendChunks(v.(waiting := false), Preamble(sets) + chunks)
  {
    var v0, due, rest := v.(waiting := false), Preamble(sets) + [chunks[0]], chunks[1..];
    ShowFirst(v, sets, chunks[0]);
    SendChunksKeepsFlags(v0, due);
    WatchOn(SendChunks(v0, due), sets, rest);
    SendChunksAppend(v0, due, rest);
    Rebracket(Preamble(sets), chunks);
  }

  lemma Rebracket(a: seq<VideoChunk>, b: seq<VideoChunk>)
    requires b != []
    ensures a + [b[0]] + b[1..] == a + b
  {
  }

  /** A waiting client is sent the preamble and everything from the first access point on. */
  lemma {:induction false} WatchWaiting(v: Viewer, sets: ParameterSets, chunks: seq<VideoChunk>)
    requires TrackOk(v.track) && TypedSets(sets) && Typed(chunks)
    requires v.playing && v.hasVideo && v.waiting
    ensures var i := FirstIrap(chunks);
            Watch(v, sets, chunks)
            == if i == |chunks| then v
               else SendChunks(v.(waiting := false), Preamble(CacheAll(sets, chunks[..i])) + chunks[i..])
    decreases |chunks|
  {
    if chunks != [] {
      if IsIrap(chunks[0]) {
        WatchFromIrap(v, sets, chunks);
        assert chunks[..0] == [] && chunks[0..] == chunks;
      } else {
        ShowNothing(v, Cache(sets, chunks[0]), chunks[0]);
        WatchWaiting(v, Cache(sets, chunks[0]), chunks[1..]);
        CacheStep(sets, chunks, FirstIrap(chunks[1..]));
      }
    }
  }

  lemma CacheStep(sets: ParameterSets, chunks: seq<VideoChunk>, i: nat)
    requires i < |chunks| && Typed(chunks)
    ensures CacheAll(sets, chunks[..i + 1]) == CacheAll(Cache(sets, chunks[0]), chunks[1..][..i])
    ensures chunks[i + 1..] == chunks[1..][i..]
  {
    assert chunks[..i + 1][1..] == chunks[1..][..i];
  }

  lemma {:induction false} UnpackedAppend(a: seq<Bytes>, b: seq<Bytes>)
    ensures Unpacked(a + b) == Unpacked(a) + Unpacked(b)
  {
    if a == [] {
      assert a + b == b;
    } else {
      assert (a + b)[1..] == a[1..] + b;
      UnpackedAppend(a[1..], b);
    }
  }

  lemma {:induction false} UnpackedIsPayloads(ps: seq<Packet>)
    requires AllOk(ps)
    ensures Unpacked(EncodeAll(ps)) == PayloadsOf(ps)
  {
    if ps != [] {
      PacketRoundTrip(ps[0]);
      UnpackedIsPayloads(ps[1..]);
      assert EncodeAll(ps)[1..] == EncodeAll(ps[1..]);
    }
  }

  lemma SuffixSplit(a: seq<Bytes>, b: seq<Bytes>, all: seq<Bytes>)
    requires a + b <= all
    ensures a <= all && all[|a|..] == b + all[|a + b|..]
  {
    assert all == a + b + all[|a + b|..];
  }

  /** What sending some chunks adds to the packets, and what is in those packets. */
  lemma {:induction false} SendChunksCarries(v: Viewer, chunks: seq<VideoChunk>)
    requires TrackOk(v.track) && Typed(chunks)
    ensures v.sent <= SendChunks(v, chunks).sent
    ensures Unpacked(SendChunks(v, chunks).sent[|v.sent|..]) == AllPayloads(Nals(chunks), MTU)
    decreases |chunks|
  {
    var v' := SendChunks(v, chunks);
    if chunks == [] {
      assert v'.sent[|v.sent|..] == [] && Nals(chunks) == [];
    } else {
      HevcPacketsOk(v.track, chunks[0], MTU);
      HevcPacketsAre(v.track, chunks[0], MTU);
      var first := EncodeAll(HevcPackets(v.track, chunks[0], MTU).1);
      var v1 := SendChunk(v, chunks[0]);
      UnpackedIsPayloads(HevcPackets(v.track, chunks[0], MTU).1);
      SendChunksCarries(v1, chunks[1..]);
      SuffixSplit(v.sent, first, v'.sent);
      UnpackedAppend(first, v'.sent[|v1.sent|..]);
      assert Nals(chunks)[1..] == Nals(chunks[1..]);
    }
  }

  // ---------------------------------------------------------------- the result

  /**
   A client that plays after some chunks and before others is sent, from then on, exactly the payloads that carry the
   late-join stream.
   */
  lemma SentSincePlay(v: Viewer, before: seq<VideoChunk>, after: seq<VideoChunk>)
    requires TrackOk(v.track) && v.hasVideo && Typed(before) && Typed(after)
    ensures var v' := Watch(Play(v), CacheAll(map[], before), after);
            v.sent <= v'.sent
            && Unpacked(v'.sent[|v.sent|..]) == AllPayloads(Nals(Joined(before, after)), MTU)
  {
    var sets, i := CacheAll(map[], before), FirstIrap(after);
    WatchWaiting(Play(v), sets, after);
    if i == |after| {
      assert v.sent[|v.sent|..] == [];
    } else {
      CacheAppend(map[], before, after[..i]);
      PreambleIsLatest(before + after[..i]);
      SendChunksCarries(Play(v).(waiting := false), Joined(before, after));
    }
  }

  lemma {:induction false} CacheAppend(sets: ParameterSets, xs: seq<VideoChunk>, ys: seq<VideoChunk>)
    requires Typed(xs) && Typed(ys)
    ensures CacheAll(sets, xs + ys) == CacheAll(CacheAll(sets, xs), ys)
    decreases |xs|
  {
    if xs == [] {
      assert xs + ys == ys;
    } else {
      assert (xs + ys)[1..] == xs[1..] + ys;
      CacheAppend(Cache(sets, xs[0]), xs[1..], ys);
    }
  }

  /** And any assembler fed those packets hands on the late-join stream, NAL by NAL. */
  lemma SeenSincePlay(v: Viewer, before: seq<VideoChunk>, after: seq<VideoChunk>, a: Assembly)
    requires TrackOk(v.track) && v.hasVideo && Typed(before) && Typed(after)
    requires forall c <- before + after :: Carried(Payload(c), MTU)
    ensures var v' := Watch(Play(v), CacheAll(map[], before), after);
            v.sent <= v'.sent
            && FeedAll(a, Unpacked(v'.sent[|v.sent|..])).1 == Restored(Nals(Joined(before, after)))
  {
    SentSincePlay(v, before, after);
    var chunks := Joined(before, after);
    JoinedFromStream(before, after);
    forall n <- Nals(chunks) ensures Carried(n, MTU) {
      var k :| 0 <= k < |chunks| && n == Nals(chunks)[k];
      assert chunks[k] in chunks;
    }
    StreamRoundTrip(a, Nals(chunks), MTU);
  }

  /** Nothing is sent that was not published. */
  lemma JoinedFromStream(before: seq<VideoChunk>, after: seq<VideoChunk>)
    requires Typed(before) && Typed(after)
    ensures forall c <- Joined(before, after) :: c in before + after
  {
    var i := FirstIrap(after);
    var history := before + after[..i];
    LatestFrom(history, 32);
    LatestFrom(history, 33);
    LatestFrom(history, 34);
    assert forall c <- history :: c in before + after;
    assert forall c <- after[i..] :: c in after;
  }

  lemma {:induction false} LatestFrom(history: seq<VideoChunk>, kind: int)
    requires Typed(history)
    ensures Latest(history, kind).Some? ==>
              Latest(history, kind).value in history && NalType(Latest(history, kind).value) == kind
  {
    if history != [] {
      LatestFrom(history[..|history| - 1], kind);
    }
  }

  /** The packets of some chunks as they are written. */
  function Written(sent: seq<seq<Packet>>): seq<Bytes>
    requires forall ps <- sent :: AllOk(ps)
  {
    if sent == [] then [] else EncodeAll(sent[0]) + Written(sent[1..])
  }

  lemma {:induction false} SendChunksIsEach(v: Viewer, chunks: seq<VideoChunk>)
    requires TrackOk(v.track) && Typed(chunks)
    ensures (forall ps <- SendEach(v.track, chunks, MTU) :: AllOk(ps))
            && SendChunks(v, chunks).sent == v.sent + Written(SendEach(v.track, chunks, MTU))
    decreases |chunks|
  {
    if chunks == [] {
      assert v.sent + [] == v.sent;
    } else {
      HevcPacketsOk(v.track, chunks[0], MTU);
      var ps := HevcPackets(v.track, chunks[0], MTU).1;
      var v1 := SendChunk(v, chunks[0]);
      SendChunksIsEach(v1, chunks[1..]);
      EachFirst(v.track, chunks);
      WrittenFirst(v.sent, ps, SendEach(v1.track, chunks[1..], MTU));
    }
  }

  lemma EachFirst(t: Track, chunks: seq<VideoChunk>)
    requires Typed(chunks) && chunks != []
    ensures var (t1, ps) := HevcPackets(t, chunks[0], MTU);
            SendEach(t, chunks, MTU) == [ps] + SendEach(t1, chunks[1..], MTU)
  {
  }

  lemma WrittenFirst(before: seq<Bytes>, ps: seq<Packet>, rest: seq<seq<Packet>>)
    requires AllOk(ps) && forall qs <- rest :: AllOk(qs)
    ensures (forall qs <- [ps] + rest :: AllOk(qs))
            && before + Written([ps] + rest) == before + EncodeAll(ps) + Written(rest)
  {
    assert ([ps] + rest)[1..] == rest;
  }

  /**
   The packets themselves: from its PLAY on a client is written those of its own track for the late-join stream, of at
   most 1200 bytes each, and so each stamped with its own chunk's time, cached parameter sets with theirs.
   */
  lemma WrittenSincePlay(v: Viewer, before: seq<VideoChunk>, after: seq<VideoChunk>)
    requires TrackOk(v.track) && v.hasVideo && Typed(before) && Typed(after)
    ensures var each := SendEach(v.track, Joined(before, after), 1200);
            && (forall ps <- each :: AllOk(ps))
            && Watch(Play(v), CacheAll(map[], before), after).sent == v.sent + Written(each)
  {
    var sets, i := CacheAll(map[], before), FirstIrap(after);
    WatchWaiting(Play(v), sets, after);
    if i == |after| {
      assert v.sent + [] == v.sent;
    } else {
      CacheAppend(map[], before, after[..i]);
      PreambleIsLatest(before + after[..i]);
      SendChunksIsEach(Play(v).(waiting := false), Joined(before, after));
    }
  }

  /** A client that does not play, or has set up no video, is sent nothing, and stays as it is. */
  lemma {:induction false} OnlyPlayersSee(v: Viewer, sets: ParameterSets, chunks: seq<VideoChunk>)
    requires TrackOk(v.track) && TypedSets(sets) && Typed(chunks) && !(v.playing && v.hasVideo)
    ensures Watch(v, sets, chunks) == v
    decreases |chunks|
  {
    if chunks != [] {
      assert Show(v, Cache(sets, chunks[0]), chunks[0]) == v;
      OnlyPlayersSee(v, Cache(sets, chunks[0]), chunks[1..]);
    }
  }

  // ---------------------------------------------------------------- where the chunks come from

  /** What the assembler holds has a NAL header. */
  predicate HeldOk(a: Assembly) { a.fu.Some? ==> |a.fu.value.bytes| >= 2 }

  /**
   Every NAL the camera's assembler hands on makes a chunk whose type can be read, with a whole header behind its start
   code, and whose type is the one in that header: the short-start-code case cannot come from there.
   */
  lemma AssembledChunksAreTyped(a: Assembly, p: Bytes, ns: int)
    requires HeldOk(a)
    ensures HeldOk(FeedOne(a, p).0)
    ensures forall nal <- FeedOne(a, p).1 ::
              var chunk := VideoChunk(nal, ns);
              HasType(chunk) && |Payload(chunk)| >= 2 && NalType(chunk) == NalTypeOf(Payload(chunk)[0])
  {
    forall nal <- FeedOne(a, p).1
      ensures StartsWith(nal, START_CODE) && |nal| >= 6
    {
      assert nal[..4] == START_CODE;
    }
  }
}
