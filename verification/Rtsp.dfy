/**
 Showing a publication's video to its clients (nexxt/rtsp.py:115-142, 250-258, 289-303, 495-506): a client that has
 just asked to play waits for a random access point, gets the cached parameter sets, and from then on every NAL.
 */
module Rtsp {
  import opened Bytes
  import opened Serial
  import opened Rtp

  const MTU := 1200

  datatype Viewer = Viewer(playing: bool, waiting: bool, hasVideo: bool, track: Track, sent: seq<Bytes>)

  type ParameterSets = map<int, VideoChunk>

  predicate Typed(chunks: seq<VideoChunk>) { forall c <- chunks :: HasType(c) }

  predicate TypedSets(sets: ParameterSets) { forall k <- sets :: HasType(sets[k]) }

  function Cached(sets: ParameterSets, kind: int): seq<VideoChunk> {
    if kind in sets then [sets[kind]] else []
  }

  /** What is sent ahead of a client's first random access point. */
  function Preamble(sets: ParameterSets): (chunks: seq<VideoChunk>)
    ensures TypedSets(sets) ==> Typed(chunks)
  {
    Cached(sets, 32) + Cached(sets, 33) + Cached(sets, 34)
  }

  function SendChunk(v: Viewer, chunk: VideoChunk): Viewer
    requires TrackOk(v.track) && HasType(chunk)
  {
    HevcPacketsOk(v.track, chunk, MTU);
    var (t, ps) := HevcPackets(v.track, chunk, MTU);
    v.(track := t, sent := v.sent + EncodeAll(ps))
  }

  function SendChunks(v: Viewer, chunks: seq<VideoChunk>): (v': Viewer)
    requires TrackOk(v.track) && Typed(chunks)
    ensures TrackOk(v'.track)
    decreases |chunks|
  {
    if chunks == [] then v
    else
      HevcPacketsOk(v.track, chunks[0], MTU);
      SendChunks(SendChunk(v, chunks[0]), chunks[1..])
  }

  /** What one client's turn in `_broadcast_video` sends. */
  function Due(v: Viewer, sets: ParameterSets, chunk: VideoChunk): (chunks: seq<VideoChunk>)
    requires HasType(chunk)
    ensures TypedSets(sets) ==> Typed(chunks)
  {
    if !v.playing || !v.hasVideo then []
    else if !v.waiting then [chunk]
    else if IsIrap(chunk) then Preamble(sets) + [chunk]
    else []
  }

  function Show(v: Viewer, sets: ParameterSets, chunk: VideoChunk): (v': Viewer)
    requires TrackOk(v.track) && TypedSets(sets) && HasType(chunk)
    ensures TrackOk(v'.track)
  {
    var due := Due(v, sets, chunk);
    SendChunks(v.(waiting := v.waiting && due == []), due)
  }

  function Cache(sets: ParameterSets, chunk: VideoChunk): (sets': ParameterSets)
    requires HasType(chunk)
    ensures TypedSets(sets) ==> TypedSets(sets')
  {
    if IsParameterSet(chunk) then sets[NalType(chunk) := chunk] else sets
  }

  function Play(v: Viewer): Viewer { v.(playing := true, waiting := true) }

  // ---------------------------------------------------------------- as it is written

  class Client {
    var playing: bool
    var waitingForIrap: bool
    var hasVideo: bool
    const video: RtpTrack
    /** The packets written to the video transport. */
    var sent: seq<Bytes>

    ghost function View(): Viewer
      reads this, video
    {
      Viewer(playing, waitingForIrap, hasVideo, video.State(), sent)
    }

    ghost predicate Valid()
      reads this, video
    {
      video.Valid()
    }

    constructor (sequence: int, ssrc: int, baseTimestamp: int)
      requires 0 <= sequence < M16 && 1 <= ssrc < M32 && 0 <= baseTimestamp < M32
      ensures Valid() && fresh(video)
      ensures !playing && waitingForIrap && !hasVideo && sent == []
      ensures video.State() == Track(96, 90000, sequence, ssrc, None, baseTimestamp, baseTimestamp)
    {
      playing, waitingForIrap, hasVideo, sent := false, true, false, [];
      video := new RtpTrack(96, 90000, sequence, ssrc, baseTimestamp);
    }

    /**
     The state change of a PLAY request. What it means for the broadcast: until an access point comes nothing is due to
     this client, and when it comes the cached parameter sets are due first. Nothing is sent by playing itself.
     */
    method StartPlaying()
      requires Valid()
      modifies this
      ensures Valid() && View() == Play(old(View()))
      ensures sent == old(sent) && video.State() == old(video.State()) && hasVideo == old(hasVideo)
      ensures forall sets: ParameterSets, chunk | TypedSets(sets) && HasType(chunk) && !IsIrap(chunk) ::
                Show(View(), sets, chunk) == View()
      ensures forall sets: ParameterSets, chunk | HasType(chunk) && IsIrap(chunk) && hasVideo ::
                Due(View(), sets, chunk) == Preamble(sets) + [chunk]
    {
      playing, waitingForIrap := true, true;
    }

    method Transmit(chunk: VideoChunk)
      requires Valid() && HasType(chunk)
      modifies this, video
      ensures Valid() && View() == SendChunk(old(View()), chunk)
    {
      var packets := video.Hevc(chunk, MTU);
      sent := sent + packets;
    }

    method TransmitCached(sets: ParameterSets, kind: int, ghost v: Viewer, ghost done: seq<VideoChunk>)
      requires Valid() && TypedSets(sets)
      requires TrackOk(v.track) && Typed(done) && View() == SendChunks(v, done)
      modifies this, video
      ensures Valid() && Typed(done + Cached(sets, kind))
      ensures View() == SendChunks(v, done + Cached(sets, kind))
    {
      if kind in sets {
        SendChunksSnoc(v, done, sets[kind]);
        Transmit(sets[kind]);
      } else {
        assert done + [] == done;
      }
    }

    /** The inner loop over parameter sets. */
    method TransmitSets(sets: ParameterSets)
      requires Valid() && TypedSets(sets)
      modifies this, video
      ensures Valid() && View() == SendChunks(old(View()), Preamble(sets))
    {
      ghost var v := View();
      ghost var done: seq<VideoChunk> := [];
      for kind := 32 to 35
        invariant Valid() && Typed(done) && View() == SendChunks(v, done)
        invariant done == CachedFrom(sets, kind)
      {
        TransmitCached(sets, kind, v, done);
        done := done + Cached(sets, kind);
      }
      CachedFromIsPreamble(sets);
    }

    /** One client's turn in `_broadcast_video`. */
    method ShowChunk(sets: ParameterSets, chunk: VideoChunk)
      requires Valid() && TypedSets(sets) && HasType(chunk)
      modifies this, video
      ensures Valid() && View() == Show(old(View()), sets, chunk)
    {
      ghost var v := View();
      if !playing || !hasVideo {
        return;
      }
      ghost var preamble: seq<VideoChunk> := [];
      if waitingForIrap {
        if !IsIrap(chunk) {
          return;
        }
        TransmitSets(sets);
        preamble := Preamble(sets);
        SendChunksFlag(v, preamble);
        waitingForIrap := false;
      }
      v := v.(waiting := false);
      assert View() == SendChunks(v, preamble);
      SendChunksSnoc(v, preamble, chunk);
      assert Due(old(View()), sets, chunk) == preamble + [chunk];
      Transmit(chunk);
    }
  }

  class Publication {
    var clients: set<Client>
    var parameterSets: ParameterSets

    /** Every client is in order, and no two share a track. */
    ghost predicate Valid()
      reads this, clients, set c <- clients :: c.video
    {
      && TypedSets(parameterSets)
      && (forall c <- clients :: c.Valid())
      && forall c <- clients, d <- clients :: c != d ==> c.video != d.video
    }

    constructor ()
      ensures Valid() && clients == {} && parameterSets == map[]
    {
      clients, parameterSets := {}, map[];
    }

    /** What `_consume` does with one video chunk. */
    method Consume(chunk: VideoChunk)
      requires Valid() && HasType(chunk)
      modifies this`parameterSets, clients, set c <- clients :: c.video
      ensures Valid()
      ensures parameterSets == Cache(old(parameterSets), chunk)
      ensures forall c <- clients :: c.View() == Show(old(c.View()), parameterSets, chunk)
    {
      if IsParameterSet(chunk) {
        parameterSets := parameterSets[NalType(chunk) := chunk];
      }
      BroadcastVideo(chunk);
    }

    /** One client's turn leaves the others alone. */
    method ShowClient(client: Client, chunk: VideoChunk)
      requires Valid() && HasType(chunk) && client in clients
      modifies client, client.video
      ensures Valid()
      ensures client.View() == Show(old(client.View()), parameterSets, chunk)
      ensures forall c <- clients :: c != client ==> c.View() == old(c.View())
    {
      client.ShowChunk(parameterSets, chunk);
    }

    method BroadcastVideo(chunk: VideoChunk)
      requires Valid() && HasType(chunk)
      modifies clients, set c <- clients :: c.video
      ensures Valid()
      ensures forall c <- clients :: c.View() == Show(old(c.View()), parameterSets, chunk)
    {
      var waiting := clients;
      while waiting != {}
        invariant waiting <= clients && Valid()
        invariant forall c <- waiting :: c.View() == old(c.View())
        invariant forall c <- clients - waiting :: c.View() == Show(old(c.View()), parameterSets, chunk)
        decreases |waiting|
      {
        var client :| client in waiting;
        ShowClient(client, chunk);
        waiting := waiting - {client};
      }
    }
  }

  function CachedFrom(sets: ParameterSets, kind: int): seq<VideoChunk> {
    if kind <= 32 then [] else CachedFrom(sets, kind - 1) + Cached(sets, kind - 1)
  }

  lemma CachedFromIsPreamble(sets: ParameterSets)
    ensures CachedFrom(sets, 35) == Preamble(sets)
  {
    assert CachedFrom(sets, 34) == CachedFrom(sets, 33) + Cached(sets, 33);
    assert CachedFrom(sets, 33) == CachedFrom(sets, 32) + Cached(sets, 32);
    assert [] + Cached(sets, 32) == Cached(sets, 32);
  }

  lemma {:induction false} SendChunksSnoc(v: Viewer, chunks: seq<VideoChunk>, chunk: VideoChunk)
    requires TrackOk(v.track) && Typed(chunks) && HasType(chunk)
    ensures SendChunks(v, chunks + [chunk]) == SendChunk(SendChunks(v, chunks), chunk)
    decreases |chunks|
  {
    if chunks != [] {
      HevcPacketsOk(v.track, chunks[0], MTU);
      assert (chunks + [chunk])[1..] == chunks[1..] + [chunk];
      SendChunksSnoc(SendChunk(v, chunks[0]), chunks[1..], chunk);
    } else {
      assert chunks + [chunk] == [chunk];
    }
  }

  /** Sending does not look at the waiting flag. */
  lemma {:induction false} SendChunksFlag(v: Viewer, chunks: seq<VideoChunk>)
    requires TrackOk(v.track) && Typed(chunks)
    ensures SendChunks(v.(waiting := false), chunks) == SendChunks(v, chunks).(waiting := false)
    decreases |chunks|
  {
    if chunks != [] {
      HevcPacketsOk(v.track, chunks[0], MTU);
      SendChunksFlag(SendChunk(v, chunks[0]), chunks[1..]);
    }
  }
}
