/** The clock of a video track. */
module VideoClock {
  // Over any calls, each packet is stamped with the time of its chunk since the first chunk that was sent, in ticks of
  // the track's clock (nexxt/rtsp.py:55-61, 71-75).

  import opened Bytes
  import opened Serial
  import opened Hevc
  import opened Rtp
  import opened HevcStream

  const SECOND := 1_000_000_000

  /**
   A timestamp shows so many nanoseconds on a clock of so many ticks a second, counted from a base and cut to 32 bits.
   */
  ghost predicate Shows(timestamp: int, base: int, elapsed: int, rate: int) {
    0 <= timestamp < M32
    && exists k {:trigger U32(base + k)} ::
         U32(base + k) == timestamp && k * SECOND <= elapsed * rate < (k + 1) * SECOND
  }

  lemma StampShows(t: Track, ns: int)
    ensures Shows(Stamp(t, ns), t.baseTimestamp, ns - (if t.baseNs.Some? then t.baseNs.value else ns), t.clockRate)
  {
    var elapsed := (ns - BaseOf(t, ns)) * t.clockRate;
    var k := elapsed / SECOND;
    assert elapsed == k * SECOND + elapsed % SECOND;
    assert U32(t.baseTimestamp + k) == Stamp(t, ns);
  }

  /** The packets of some chunks, chunk by chunk. */
  function SendEach(t: Track, chunks: seq<VideoChunk>, mtu: int): (sent: seq<seq<Packet>>)
    requires mtu >= 4 && forall c <- chunks :: HasType(c)
    ensures |sent| == |chunks|
    decreases |chunks|
  {
    if chunks == [] then []
    else
      var (t1, ps) := HevcPackets(t, chunks[0], mtu);
      [ps] + SendEach(t1, chunks[1..], mtu)
  }

  /** A chunk with less than a NAL header in it sends nothing. */
  predicate Sends(chunk: VideoChunk) { |Payload(chunk)| >= 2 }

  /** The time of the first chunk that is sent. */
  function FirstTime(chunks: seq<VideoChunk>): Option<int> {
    if chunks == [] then None
    else if Sends(chunks[0]) then Some(chunks[0].timestampNs)
    else FirstTime(chunks[1..])
  }

  /** Where the track's clock starts: where it has started, or else with the first chunk that is sent. */
  function StartTime(t: Track, chunks: seq<VideoChunk>): Option<int> {
    if t.baseNs.Some? then t.baseNs else FirstTime(chunks)
  }

  lemma SendsIff(t: Track, chunk: VideoChunk, mtu: int)
    requires mtu >= 4 && HasType(chunk)
    ensures var (t1, ps) := HevcPackets(t, chunk, mtu);
            && (ps != [] <==> Sends(chunk))
            && t1.clockRate == t.clockRate && t1.baseTimestamp == t.baseTimestamp
            && t1.baseNs == (if Sends(chunk) && t.baseNs.None? then Some(chunk.timestampNs) else t.baseNs)
            && forall p <- ps :: p.timestamp == Stamp(t, chunk.timestampNs)
  {
    if |Payload(chunk)| > mtu {
      PartsCount(Payload(chunk)[2..], mtu - 3);
    }
  }

  /**
   Every packet of every chunk shows the chunk's time since the start on the track's clock, rounded down to a tick: the
   same for all its packets, and the base itself for the first chunk.
   */
  lemma {:induction false} VideoTimestamps(t: Track, chunks: seq<VideoChunk>, mtu: int, i: nat)
    requires mtu >= 4 && (forall c <- chunks :: HasType(c)) && i < |chunks|
    ensures SendEach(t, chunks, mtu)[i] != [] <==> Sends(chunks[i])
    ensures Sends(chunks[i]) ==> StartTime(t, chunks).Some?
    ensures forall p <- SendEach(t, chunks, mtu)[i] ::
              StartTime(t, chunks).Some?
              && Shows(p.timestamp, t.baseTimestamp, chunks[i].timestampNs - StartTime(t, chunks).value, t.clockRate)
    decreases |chunks|
  {
    SendsIff(t, chunks[0], mtu);
    if i == 0 {
      StampShows(t, chunks[0].timestampNs);
    } else {
      var (t1, ps) := HevcPackets(t, chunks[0], mtu);
      VideoTimestamps(t1, chunks[1..], mtu, i - 1);
      assert StartTime(t1, chunks[1..]) == StartTime(t, chunks);
    }
  }
}
