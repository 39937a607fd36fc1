# Verified model of the camera transport and media path

A Dafny model of the parts of the Nexxt camera client whose correctness is not visible from any one function: the
pure-Python KCP transport, HEVC fragmentation and reassembly with the RTSP late-join stream, the bounded playback queue
with decoder resynchronisation, and the STUN codec. `dafny verify dfyconfig.toml` checks everything.

## How it is built

**Arithmetic.** `Serial` holds the 32-bit wrapping numbers and `_itimediff`. Every KCP definition takes a `Numbering`:
`Wrapping` is what the code does, `Unbounded` is the same code with sequence numbers that never wrap. `KcpWrap` and
`KcpRefine` prove that the two do the same as long as the network forgets a datagram before the numbers in it are nearly
half a cycle old, and derive results for the code as it runs that mention no unbounded number.

**KCP.** `KcpModel` says as functions what each operation does to an endpoint; `KcpEndpoint` is the class
`PythonKCP` with the source's fields and loops, each method proved against the function. `KcpWire` and `KcpPacking`
are the byte formats. `KcpFlush` writes out what one flush does. `KcpReceive`, `KcpSend` and `KcpInvariant` are the
endpoint's invariants, kept by every call whatever bytes arrive; `KcpCalls`, `KcpBackoff` and `KcpSkips` are about
one endpoint under any sequence of calls. `KcpSystem` puts two endpoints on a network that keeps every datagram ever
sent and may deliver it late, again, out of order or never. `KcpDrain` is about one loss-free round from any state,
`KcpDrainHosts` about what such rounds recover after any run and for exactly which windows, `KcpDrainLong` about the
same after long runs, `KcpTiming` about timers, `KcpEcho` about where their samples come from, `KcpCongestion` about
the congestion window.

**Media.** `Hevc` is the assembler, `Rtp` the packetiser, `HevcStream` proves they are inverse; `VideoClock` is about
timestamps; `Rtsp` is the broadcast to clients and `LateJoin` what a client sees from its PLAY on. `MediaRecord` is
the camera's envelope.

**Playback.** `Playback` says what each operation of the queue does, `PlayerPipe` is the class, `PlaybackTrace` is about
everything the player is ever given, `PlaybackFlow` about when the queue overflows and what the counters say.

**STUN.** `Stun` is the attribute printer and the parser, `StunBuild` the two messages the client sends.

## What the code does that its documentation or shape does not suggest

- The early stop of `_parse_una` differs from filtering the whole buffer when a cumulative acknowledgement lies about
  half a cycle away (`KcpSend.UnaEarlyStop` has the exact condition, `UnaEarlyStopCanDiffer` an instance).
- The last clamp in `input` (`cwnd > rmt_wnd`) never applies; the class asserts so where the source tests it. Nor does
  the branch that lifts `incr` to `mss` (`KcpCongestion.GrowKeepsWindow`).
- With no segment due, `check` says now where `update` does not flush in exactly one case, a flush time 10000 ms ahead
  (`KcpTiming.CheckDisagrees`, `CheckDisagreesOnce`); and after a flush it still says now when an untouched segment's
  time is exactly half a clock cycle away (`CheckLaterAfterFlush`, `KcpCalls.CheckNowAfterFlush`).
- The header has 16 bits for the free window, so a receive window is as good as what it is modulo 65536. From 127 on
  everything drains after any losses; below, and so also at a multiple of 65536, there are runs after which the sender
  takes the window to be shut for good (`KcpDrainHosts.DrainsIff`, `HostsNeverDrain`, `HostsShutForGood`).
- The constructor stores `nodelay` without lowering the minimum timeout; only `set_nodelay` does.
- `VideoChunk.nal_type` reads a three-byte start code as part of the NAL, though `payload` strips it, so a key frame
  behind one is not an access point (`Rtp.TypeIsPayloadType`, `ShortStartCodeHidesIrap`). The assembler always writes
  four bytes, so its own chunks are never affected (`LateJoin.AssembledChunksAreTyped`).
- A NAL that already has type 49 and fits one packet is sent unwrapped and does not come back
  (`HevcStream.RoundTripIff`).
- A decoder restart in `PlaybackPipe` is not checked against `max_chunks` (`Playback.RestartExceedsLimit`,
  `RestartOverLimit`).
- Two error returns of `parse_stun`, the truncated attribute header and the padding past the end, cannot be reached
  (`Stun.DeadErrors`).

## Model

| member | source | states |
|---|---|---|
| Serial.ItimediffExact | tuya_p2p/_kcp_python.py:55-63 | The signed difference of two 32-bit counters is the true difference exactly when that lies in [-2^31, 2^31) |
| KcpEndpoint.PythonKCP.constructor | tuya_p2p/_kcp_python.py:106-157 | Any settings with an MTU of at least 50 give the documented initial state; positive windows below 2^31 and an MTU below 2^32 give the invariant |
| KcpEndpoint.PythonKCP.SetNodelay | tuya_p2p/_kcp_python.py:159-174 | Retuning changes exactly the timer settings and keeps the invariant |
| KcpEndpoint.PythonKCP.Send | tuya_p2p/_kcp_python.py:184-195 | The loop queues exactly the fragments of the message, or nothing with -1 for an empty and -2 for an oversized one |
| KcpEndpoint.PythonKCP.Recv | tuya_p2p/_kcp_python.py:197-224 | Returns the bytes of the first message when it is complete, takes it off, and promotes what is next in order |
| KcpEndpoint.PythonKCP.Peeksize | tuya_p2p/_kcp_python.py:226-239 | The size of the first message, or -1 when it is not complete |
| KcpEndpoint.PythonKCP.Input | tuya_p2p/_kcp_python.py:241-323 | For any bytes whatever: the state and the status 0, -1, -2 or -3 that the parsed segments determine; the invariant survives and snd_una does not move back |
| KcpEndpoint.PythonKCP.Update | tuya_p2p/_kcp_python.py:325-340 | The clock moves, and a flush happens exactly when due, appending exactly that flush's datagrams to the output |
| KcpEndpoint.PythonKCP.Flush | tuya_p2p/_kcp_python.py:342-344 | Appends the packed bytes of the emitted segments to the output and leaves the flushed state |
| KcpEndpoint.PythonKCP.Check | tuya_p2p/_kcp_python.py:346-367 | The scan computes the specified next time from the clock, the flush time and the send buffer |
| KcpEndpoint.PythonKCP.WndUnused | tuya_p2p/_kcp_python.py:369-372 | The room advertised is never negative, is 0 exactly when the receive queue is full, and fills the queue exactly to its window |
| KcpEndpoint.PythonKCP.UpdateAck | tuya_p2p/_kcp_python.py:374-385 | One round-trip sample updates the three estimates and nothing else |
| KcpEndpoint.PythonKCP.ParseAck | tuya_p2p/_kcp_python.py:390-398 | The scan removes the acknowledged segment, if it is in flight |
| KcpEndpoint.PythonKCP.ParseUna | tuya_p2p/_kcp_python.py:400-408 | The scan removes the covered prefix of the send buffer |
| KcpEndpoint.PythonKCP.ParseFastack | tuya_p2p/_kcp_python.py:410-417 | The scan counts a skip on each older segment sent no later, and touches no other |
| KcpEndpoint.PythonKCP.ParseData | tuya_p2p/_kcp_python.py:419-449 | The backwards scan inserts or drops the segment, and the ready run is promoted |
| KcpEndpoint.PythonKCP.FlushNow | tuya_p2p/_kcp_python.py:451-574 | Acknowledgements, probes, admission, retransmission, packing and congestion control together do what the flush function says |
| KcpEndpoint.PythonKCP.EmitSegment | tuya_p2p/_kcp_python.py:456-463 | The bytes collected so far stay the packing of the segments emitted so far |
| KcpEndpoint.PythonKCP.TransmitBuffer | tuya_p2p/_kcp_python.py:514-547 | Editing the send buffer in place and emitting as it goes gives the transmitted buffer, its outgoing segments and the two loss counts |
| KcpInvariant.InputPacketKeepsOk | tuya_p2p/_kcp_python.py:241-323 | Any packet at all, malformed included, keeps the reorder buffer, the send window within snd_wnd and 65535, and the segment sizes in order, and never moves snd_una back |
| KcpInvariant.FlushKeepsOk | tuya_p2p/_kcp_python.py:451-574 | So does every flush |
| KcpCalls.CallsKeepWindows | tuya_p2p/_kcp_python.py:387-449 | After any calls with any bytes as input: the invariant holds, at most snd_wnd numbers are in use, and snd_una is where its forward moves alone have brought it |
| KcpStream.FragmentsCount | tuya_p2p/_kcp_python.py:188-191 | Cutting a message gives ceil(length / mss) fragments |
| KcpStream.FragmentAt | tuya_p2p/_kcp_python.py:192-194 | Fragment i is the source's slice i and counts the fragments after it |
| KcpStream.SendAccepts | tuya_p2p/_kcp_python.py:184-191 | A message is accepted if and only if it has 1 to 127 * mss bytes; empty ones give -1 and longer ones -2 |
| KcpStream.ReadsBack | tuya_p2p/_kcp_python.py:184-239 | A queue that begins with a message's fragments gives back exactly that message and uses up exactly those fragments |
| KcpStream.PeekIff | tuya_p2p/_kcp_python.py:226-239 | A message is found exactly when all its fragments are queued |
| KcpWire.ParseRoundTrip | tuya_p2p/_kcp_python.py:252-265 | Parsing the concatenated encodings of any segments returns exactly those segments with status 0 |
| KcpWire.SegmentLayout | tuya_p2p/_kcp_python.py:81-96 | Where each header field of a segment stands in its bytes, little-endian, and the data behind them |
| KcpWire.Commands | tuya_p2p/_kcp_python.py:263 | Exactly the commands 81 to 84 are known, and what each is |
| KcpWire.ParseStatus | tuya_p2p/_kcp_python.py:241-265 | For any bytes: the whole segments at their front are taken, and the status says exactly what is wrong behind them |
| KcpPacking.FlushPacks | tuya_p2p/_kcp_python.py:456-463 | Packing a flush's segments splits, drops and reorders none, and no datagram is empty or over the MTU |
| KcpPacking.FlushFull | tuya_p2p/_kcp_python.py:456-463 | And no datagram begins before the next segment really has no room in the last one |
| KcpPacking.FlushRoundTrip | tuya_p2p/_kcp_python.py:451-551 | Every datagram of a flush has 24 to mtu bytes and the header loop reads the datagrams as exactly the emitted segments in order |
| KcpReceive.WindowTest | tuya_p2p/_kcp_python.py:421-425 | The two wrapped comparisons say exactly that a number lies in the receive window |
| KcpReceive.ScanBackFinds | tuya_p2p/_kcp_python.py:427-439 | The backwards scan finds a duplicate exactly when there is one, and otherwise the place that keeps the order |
| KcpReceive.InsertIsSorted | tuya_p2p/_kcp_python.py:427-442 | The scan equals sorted insertion and set insertion: it adds exactly the new number and drops exactly duplicates |
| KcpReceive.BufferFits | tuya_p2p/_kcp_python.py:419-442 | The reorder buffer never holds more segments than the window is wide |
| KcpReceive.PromotedInOrder | tuya_p2p/_kcp_python.py:444-449 | What promotion appends to the queue is the run of consecutive numbers from the next expected on |
| KcpReceive.InputKeepsRecvOk | tuya_p2p/_kcp_python.py:419-449 | After any datagram the reorder buffer is strictly ascending inside the window, and its head is next in order only when the queue is full |
| KcpReceive.RecvKeepsRecvOk | tuya_p2p/_kcp_python.py:197-224 | The same after every `recv` |
| KcpReceive.WidenKeepsIff | tuya_p2p/_kcp_python.py:176-182 | Widening the receive window keeps that if and only if the reorder buffer does not begin with the next segment in order |
| KcpReceive.WidenBreaks | tuya_p2p/_kcp_python.py:176-182 | A receiver that has taken two segments and for which it does not |
| KcpSend.UnaEarlyStop | tuya_p2p/_kcp_python.py:400-408 | The early stop equals filtering the whole buffer if and only if the acknowledgement does not straddle it |
| KcpSend.UnaEarlyStopCanDiffer | tuya_p2p/_kcp_python.py:400-408 | There is a valid send buffer and an acknowledgement for which it differs |
| KcpSend.AckEarlyStop | tuya_p2p/_kcp_python.py:390-398 | Removing one acknowledged segment with an early stop equals filtering the whole buffer |
| KcpSend.ReleasesExactly | tuya_p2p/_kcp_python.py:266-275 | A packet of any command releases exactly the segments its cumulative acknowledgement is past and, if it is an acknowledgement, the one it names; every other segment stays |
| KcpSend.FastackEarlyStop | tuya_p2p/_kcp_python.py:410-417 | The early stop counts skips on exactly the segments up to the acknowledged number |
| KcpSend.SkipsExactly | tuya_p2p/_kcp_python.py:410-417 | Of those, exactly the strictly older ones that were sent no later than the acknowledged packet are counted, once; nothing else changes |
| KcpSend.InputKeepsSendOk | tuya_p2p/_kcp_python.py:387-417 | After any datagram the send buffer is strictly ascending inside [snd_una, snd_nxt), snd_una is its head or snd_nxt, and never moves back |
| KcpSend.MarkIsNewest | tuya_p2p/_kcp_python.py:275-282 | Of a datagram's acknowledgements within half a cycle of each other the newest is remembered, with a time that came with it, in wrapping numbers too |
| KcpSend.MarkStays | tuya_p2p/_kcp_python.py:275-282 | Of several acknowledgements of the same number the first one's time is kept |
| KcpSend.FlushKeepsSendOk | tuya_p2p/_kcp_python.py:493-512 | Numbering new segments keeps snd_nxt - snd_una within any bound on the window and leaves snd_una alone |
| KcpFlush.FlushFills | tuya_p2p/_kcp_python.py:498-512 | A flush numbers exactly as many queued segments as fit the least of the send window, the peer's and, unless switched off, the congestion window |
| KcpFlush.FirstFlushWaits | tuya_p2p/_kcp_python.py:498-512 | With congestion control a new endpoint's first flush sends no data and its second one segment |
| KcpFlush.AdmitNumbers | tuya_p2p/_kcp_python.py:502-517 | These are the front of the queue in order, numbered from snd_nxt on, unsent and with no skips |
| KcpFlush.GoesOutIff | tuya_p2p/_kcp_python.py:522-551 | A segment is put on the wire, under the current time, if and only if it is new, its time has come, or it has been passed by often enough |
| KcpFlush.FlushTimers | tuya_p2p/_kcp_python.py:522-545 | What its timers, its counts and its next time are afterwards in each of these cases; otherwise it is untouched |
| KcpFlush.FlushOrder | tuya_p2p/_kcp_python.py:465-551 | Acknowledgements go out first, as noted, then the probe, then its answer, then data in the order of the buffer |
| KcpFlush.ProbingStarts | tuya_p2p/_kcp_python.py:478-482 | The first flush that finds the window shut starts the probe timer and does not probe |
| KcpFlush.ProbingStops | tuya_p2p/_kcp_python.py:488-490 | A flush that finds it open stops the timer, and the next schedule begins with the first wait |
| KcpFlush.ProbeSchedule | tuya_p2p/_kcp_python.py:478-489 | While it stays shut, each probe leaves with the first flush after the wait for it, and the timer starts again |
| KcpFlush.Waits | tuya_p2p/_kcp_python.py:480-486 | These waits are 7000, 10500, 15750, ... and from the ninth on 120000 ms |
| KcpFlush.FlushProbes | tuya_p2p/_kcp_python.py:478-496 | A flush asks if and only if a probe is due, answers if and only if the peer has asked, and then has nothing left to say |
| KcpFlush.FlushReacts | tuya_p2p/_kcp_python.py:560-574 | After a timeout the window is one segment and the threshold half the window; after early resends alone half of what is in flight, plus the skips they take; otherwise both stay |
| KcpSkips.CountsPasses | tuya_p2p/_kcp_python.py:410-417 | Between flushes a segment changes only in its count, which over any calls is the number of datagrams whose newest acknowledgement passed it |
| KcpSkips.RunEarly | tuya_p2p/_kcp_python.py:541-551 | So over any calls it is resent before its time if and only if that is `fastresend` or more, and the count starts again |
| KcpSystem.RunKeepsGood | tuya_p2p/_kcp_python.py:184-574 | Every move of either peer over the network keeps the two-way invariant of streams, acknowledgements and datagrams |
| KcpSystem.DeliveredIsPrefix | tuya_p2p/_kcp_python.py:184-323 | Over any run with loss, duplication and reordering, what is read is a prefix of what was accepted, each message whole and once |
| KcpWrap.WrapReceiverAbsorb | tuya_p2p/_kcp_python.py:419-449 | Receiving a segment does the same with 32-bit and with unbounded numbers when the number is near enough |
| KcpWrap.WrapSenderAbsorb | tuya_p2p/_kcp_python.py:387-408 | So does processing its acknowledgements |
| KcpWrap.WrapAdmit | tuya_p2p/_kcp_python.py:498-512 | So does numbering new segments |
| KcpRefine.WrapInput | tuya_p2p/_kcp_python.py:241-323 | On the bytes of any recent datagram the 32-bit `input` returns 0 and does what the unbounded endpoint does |
| KcpRefine.WrapRun | tuya_p2p/_kcp_python.py:98-574 | A run of the byte-level system over a forgetful network is the unbounded system's run, step for step, at any length |
| KcpRefine.WrappedDelivery | tuya_p2p/_kcp_python.py:184-323 | Reliable ordered delivery for the byte-level system over runs of any length, if the network forgets old datagrams |
| KcpRefine.HostDelivery | tuya_p2p/_kcp_python.py:184-323 | Reliable ordered delivery for the byte-level system over every network, for runs of fewer than about 2^31 fragments |
| KcpRefine.HostsLoseNothing | tuya_p2p/_kcp_python.py:387-449 | No segment is lost by the byte-level system in such runs: each number given out is in the send buffer or has arrived |
| KcpRefine.HostsReadNext | tuya_p2p/_kcp_python.py:197-239 | In such runs a read at either end returns the next unread message, and succeeds exactly when all its fragments have been promoted |
| KcpRefine.HostsNeverDeadlock | tuya_p2p/_kcp_python.py:184-239 | At neither end can a full receive queue under a window of at least 127 withhold the next message |
| KcpDrain.FlushAdvertises | tuya_p2p/_kcp_python.py:451-470 | Every segment of a flush advertises the free window modulo 65536, in wrapping numbers too |
| KcpDrainHosts.HostsHaveNoGap | tuya_p2p/_kcp_python.py:387-449 | In every run too short to wrap, a host whose receive queue has room has everything below the other's snd_una, at both ends |
| KcpDrain.RoundShortens | tuya_p2p/_kcp_python.py:241-574 | From any state, whatever was lost: a loss-free round with the oldest segment due, or a new one let in, strictly shortens queue plus buffer, if the receiver's queue has room |
| KcpDrain.TimelyExists | tuya_p2p/_kcp_python.py:325-340 | Whatever the clocks and timers show, there are times for a next such round |
| KcpDrainHosts.HostsShutForGood | tuya_p2p/_kcp_python.py:478-512 | A host told of no room, with nothing in flight, at a host that has all that was sent and whose room is a multiple of 65536, sends nothing more of what it has queued, however many timely loss-free rounds there are |
| KcpDrainHosts.HostBacklogDrains | tuya_p2p/_kcp_python.py:184-574 | After any run of the byte-level system, whatever it lost, any schedule of timely loss-free rounds delivers and acknowledges everything, in one round for each segment queued or in flight and at most two more to reopen a shut window; either direction |
| KcpDrainHosts.HostsNeverDrain | tuya_p2p/_kcp_python.py:184-574 | For each receive window below 127 modulo 65536 a run, with a send window of one, after which no schedule of timely loss-free rounds ever empties the send queue |
| KcpDrainHosts.DrainsIff | tuya_p2p/_kcp_python.py:369-372 | So the receive windows to which every run of the byte-level system drains are exactly those of at least 127 modulo 65536 |
| KcpDrainLong.LongBacklogDrains | tuya_p2p/_kcp_python.py:184-574 | The same drain after a run of any length over a forgetful network, if the acknowledgements still pending are not nearly half a cycle old |
| KcpCongestion.GrowKeepsWindow | tuya_p2p/_kcp_python.py:307-321 | Progress grows the window by at most one segment, never past the peer's, in segments and bytes alike |
| KcpCongestion.GrowIs | tuya_p2p/_kcp_python.py:307-321 | How much exactly: one segment in slow start, otherwise mss * mss / incr + mss / 16 bytes, nothing at the peer's window |
| KcpCongestion.SlowStart | tuya_p2p/_kcp_python.py:307-312 | Over any number of datagrams with progress, one segment each up to the threshold |
| KcpCongestion.StartsAtOne | tuya_p2p/_kcp_python.py:117-145 | A new endpoint's first windows, from one segment and a threshold of two on |
| KcpCongestion.NoProgressNoGrowth | tuya_p2p/_kcp_python.py:307-321 | Input that acknowledges nothing new leaves the window alone |
| KcpCongestion.ErrorsDoNotGrow | tuya_p2p/_kcp_python.py:249-265 | And so does input that returns an error |
| KcpCongestion.ReactKeepsWindow | tuya_p2p/_kcp_python.py:560-574 | After a flush the window is at least one segment, exactly one after a timeout, above the threshold after a fast retransmit, otherwise untouched |
| KcpCongestion.WindowMatchesBytes | tuya_p2p/_kcp_python.py:307-321 | In every run `cwnd` is exactly `incr // mss` and `ssthresh` at least 2 |
| KcpTiming.EstimatorBounds | tuya_p2p/_kcp_python.py:374-385 | Over any non-negative samples and retunings the estimates never exceed the largest sample or 1, and the timeout stays in 30..60000, in 100..60000 without nodelay |
| KcpTiming.FirstSample | tuya_p2p/_kcp_python.py:374-377 | The first sample is the smoothed time, and half of it the deviation |
| KcpTiming.DeviationBetween | tuya_p2p/_kcp_python.py:378-381 | A sample moves the deviation a quarter of the way to its distance from the smoothed time, never past, and leaves it alone exactly when that is 0 to 3 ms above it |
| KcpTiming.TimeoutIs | tuya_p2p/_kcp_python.py:384-385 | The timeout is the smoothed time and the larger of one interval and four deviations, within its limits |
| KcpTiming.JumpCovered | tuya_p2p/_kcp_python.py:374-385 | After a jump of 24 ms or more the timeout covers the new round trip and three old deviations, after any rise all but 3 ms of it |
| KcpTiming.TuneIs | tuya_p2p/_kcp_python.py:159-174 | What tuning sets, keeps and limits |
| KcpEcho.AcksEchoTimes | tuya_p2p/_kcp_python.py:284-286 | In every run, in both directions, an acknowledgement echoes the number and time of a data segment the other peer sent, and that time is what its clock once showed |
| KcpEcho.SampleIsElapsed | tuya_p2p/_kcp_python.py:271-274 | The sample taken from such an echo is the true time since then, through clock wrap; one from the future is ignored |
| KcpTiming.SmoothedBetween | tuya_p2p/_kcp_python.py:374-385 | A sample moves the smoothed time towards itself and never past, and leaves it alone exactly when 0 to 7 ms above it |
| KcpTiming.SteadySamples | tuya_p2p/_kcp_python.py:374-385 | Under a constant round-trip time the smoothed time stays there, the deviation decays as (3/4)^n, and the timeout follows |
| KcpTiming.RunTimeouts | tuya_p2p/_kcp_python.py:271-385 | In every run of two endpoints, whatever arrives, timeouts stay in 30..60000 |
| KcpTiming.UpdateFlushesIff | tuya_p2p/_kcp_python.py:325-340 | `update` flushes if and only if it is the first call, the flush time has come, or the clock has jumped |
| KcpTiming.NextFlushTime | tuya_p2p/_kcp_python.py:333-340 | In true time: the next flush is one interval after the time this one was due, or one interval from now if the call is a whole interval late |
| KcpTiming.FirstUpdate | tuya_p2p/_kcp_python.py:325-350 | A new endpoint's first `update` flushes whatever the time, `check` says so, and the schedule starts there |
| KcpTiming.FlushAfterJump | tuya_p2p/_kcp_python.py:331-340 | A clock that jumps by 10 seconds or more starts the schedule afresh |
| KcpTiming.FlushesOnGrid | tuya_p2p/_kcp_python.py:325-340 | No drift: over any calls none of which is a whole interval late, the flush times are f, f + interval, f + 2 * interval, ... |
| KcpTiming.CheckPredictsFlush | tuya_p2p/_kcp_python.py:325-367 | Whenever `update` would flush, `check` beforehand answers now |
| KcpTiming.CheckAnswers | tuya_p2p/_kcp_python.py:346-367 | When exactly `check` answers now; otherwise its answer is the nearest of the flush time, the resend times and one interval, past none of them |
| KcpTiming.CheckDisagrees | tuya_p2p/_kcp_python.py:325-367 | With no segment due, `check` says now and `update` does not flush if and only if the clock is updated and the flush time 10000 ms ahead |
| KcpTiming.CheckDisagreesOnce | tuya_p2p/_kcp_python.py:325-367 | An endpoint updated at 9990 ms and asked about time 0 is such a case |
| KcpTiming.CheckLaterAfterFlush | tuya_p2p/_kcp_python.py:325-367 | After a flush `check` is strictly later if and only if no untouched segment lies exactly half a cycle away |
| KcpCalls.CheckNowAfterFlush | tuya_p2p/_kcp_python.py:325-367 | Two calls on a new endpoint after which, half a clock cycle later, `update` flushes and `check` still says now |
| KcpCalls.RunBackoff | tuya_p2p/_kcp_python.py:519-545 | In any run of an endpoint's calls with nodelay off, a segment's k-th timeout comes no earlier than t0 + (2^k - 1) * r0, through clock wrap, fast retransmits and estimator updates |
| KcpCalls.RunTimeoutsLogarithmic | tuya_p2p/_kcp_python.py:519-545 | In such a run the number of timeouts k within a span satisfies 2^k <= span / r0 + 1 |
| KcpBackoff.RunDoubling | tuya_p2p/_kcp_python.py:519-545 | In such a run, after k timeouts the timeout is between 2^k * r0 and 2^k times the largest estimate, and exactly 2^k * r0 while the estimate does not exceed r0 |
| KcpBackoff.RunLinear | tuya_p2p/_kcp_python.py:519-545 | With nodelay on it grows by half the estimate each time, rounded down |
| KcpBackoff.RunLatest | tuya_p2p/_kcp_python.py:514-547 | A lost segment is resent in time: with flushes less than a gap apart, one still waiting after k timeouts and f early resends was first sent less than most / 8 + (2^(k+1) - 1 + f * 2^k) * most + (k + 1) * gap ago, where most bounds the estimate |
| Hevc.HevcAssembler.Feed | nexxt/media.py:118-176 | One packet moves the assembler and emits NALs as the feed function says |
| Hevc.HoldsOpenRun | nexxt/media.py:143-170 | The assembler holds an unfinished NAL if and only if the packets end with an open run from a START, and holds exactly its rebuilt header and bodies |
| Hevc.EmitsExactly | nexxt/media.py:118-176 | After any packets, the next one emits a complete NAL as it is, or the whole run it ends, or nothing |
| Hevc.CountsWhatItEmits | nexxt/media.py:118-176 | `complete_nals` plus `reassembled_fu` counts the emitted NALs |
| Hevc.CountsExactly | nexxt/media.py:118-176 | Which of the two each packet counts in |
| Hevc.AnomaliesExactly | nexxt/media.py:118-176 | After any packets, the next is counted as an anomaly if and only if it is too short, interrupts an open run, or carries on none of its type |
| Rtp.TypeIsPayloadType | nexxt/media.py:45-56 | A chunk's type is its payload's type if and only if it has no three-byte start code or the type is 0 |
| Rtp.TypesByByte | nexxt/media.py:45-63 | Access points and parameter sets by the value of the first NAL byte |
| Rtp.PayloadIs | nexxt/media.py:48-56 | Start codes of four and of three bytes are taken off, and nothing else |
| Rtp.ShortStartCodeHidesIrap | nexxt/media.py:45-63 | A key frame behind a three-byte start code is not seen as one |
| Rtp.PacketRoundTrip | nexxt/rtsp.py:63-69 | A receiver reads back every field of every packet |
| Rtp.RtpTrack.Hevc | nexxt/rtsp.py:55-96 | The loops emit the encoded packets of the chunk and advance the track |
| Rtp.RtpTrack.Pcm | nexxt/rtsp.py:98-112 | The loop emits the encoded packets of the byte-swapped samples and advances sequence and audio timestamp |
| Rtp.SwapKeepsSamples | nexxt/rtsp.py:101-104 | Each little-endian sample becomes the big-endian sample of the same value |
| HevcStream.NalRoundTrip | nexxt/rtsp.py:71-96 | Fed to an assembler in any state, a NAL's payloads emit exactly that NAL and leave it at rest |
| HevcStream.RoundTripIff | nexxt/rtsp.py:76-81 | That holds for every assembler state if and only if the NAL is not of type 49 within one packet |
| HevcStream.PayloadsFit | nexxt/rtsp.py:77-95 | No payload is empty or exceeds the MTU, and no fragment is both start and end |
| HevcStream.FuLayout | nexxt/rtsp.py:76-96 | The exact bytes of each fragment: header with type 49, start bit, end bit and type, and its piece of the NAL, as few pieces as can be (section 4.4.3 of RFC 7798) |
| HevcStream.StreamRoundTrip | nexxt/rtsp.py:71-96 | Any sequence of NALs comes back in order, from any assembler state |
| HevcStream.HevcPacketsAre | nexxt/rtsp.py:71-96 | One chunk's packets are consecutive, share its timestamp, carry its payloads, and only the last of a VCL NAL is marked |
| HevcStream.TrackContinuity | nexxt/rtsp.py:63-69 | Over any sequence of video and audio calls sequence numbers are consecutive modulo 2^16 |
| HevcStream.AudioContinuity | nexxt/rtsp.py:98-112 | Concatenated audio payloads are the swapped even-length inputs, and each timestamp is the base plus the samples sent before, modulo 2^32 |
| HevcStream.AudioFits | nexxt/rtsp.py:98-112 | Audio packets are unmarked, hold whole samples, and all but a call's last are as long as fits |
| VideoClock.VideoTimestamps | nexxt/rtsp.py:55-61 | Over any chunks, each packet's timestamp is the base plus the whole ticks of the track's clock between the first chunk sent and its own, modulo 2^32 |
| Rtsp.Client.StartPlaying | nexxt/rtsp.py:501-503 | PLAY sends nothing; after it no chunk before an access point does anything to the client, and at one the cached parameter sets are due first |
| Rtsp.Client.ShowChunk | nexxt/rtsp.py:290-303 | One client's turn sends what is due to it and moves its waiting flag |
| Rtsp.Publication.Consume | nexxt/rtsp.py:250-303 | A chunk updates the parameter sets and every client of the publication, each as if alone |
| LateJoin.CacheIsLatest | nexxt/rtsp.py:254-255 | The cached parameter set of a type is the last chunk of that type |
| LateJoin.SentSincePlay | nexxt/rtsp.py:289-303 | For any history, a client is sent nothing before the first access point after its PLAY, then the latest VPS, SPS, PPS, that point and everything after |
| LateJoin.SeenSincePlay | nexxt/rtsp.py:289-303 | Any assembler fed those packets hands on exactly that stream, NAL by NAL |
| LateJoin.WrittenSincePlay | nexxt/rtsp.py:289-303 | What is written to it is exactly its own track's packets for that stream, so each is stamped with its own chunk's time |
| LateJoin.OnlyPlayersSee | nexxt/rtsp.py:289-303 | A client that does not play or has no video is written nothing and stays as it is |
| LateJoin.AssembledChunksAreTyped | nexxt/media.py:118-176 | Every chunk made from an assembled NAL has a readable type, the one in its header |
| MediaRecord.ParseIff | nexxt/media.py:82-101 | A message is accepted if and only if it is a 16-byte prefix and the two length-prefixed parts, and those are returned |
| MediaRecord.ReasonsAre | nexxt/media.py:82-101 | Why any other message is refused |
| Playback.OfferVideoKeepsOk | nexxt_lan.py:1413-1472 | A video offer keeps the byte count exact and within the limit, and the queue empty while waiting to resynchronise |
| Playback.EvictIs | nexxt_lan.py:1487-1490 | Audio eviction drops the fewest oldest chunks that make room, or all of them |
| Playback.OfferAudioKeepsOk | nexxt_lan.py:1485-1495 | Every audio chunk offered is queued or counted as dropped, in chunks and in bytes |
| Playback.RestartExceedsLimit | nexxt_lan.py:1444-1460 | A restart exceeds the chunk limit if and only if the limit is below its own length |
| Playback.RestartOverLimit | nexxt_lan.py:1431-1472 | A new pipe with a limit of one chunk that holds three after a VPS, an SPS and an IDR |
| PlayerPipe.PlaybackPipe.OfferVideoLocked | nexxt_lan.py:1431-1472 | The method and its recursive call after an overflow do what the offer function says |
| PlayerPipe.PlaybackPipe.Offer | nexxt_lan.py:1474-1495 | Every offer does what the offer function says and keeps the invariant |
| PlayerPipe.PlaybackPipe.Take | nexxt_lan.py:1505-1506 | The writer gets the oldest chunk and the byte count follows |
| PlayerPipe.PlaybackPipe.Close | nexxt_lan.py:1528-1534 | Afterwards the queue is empty, the writer gets nothing, every offer is ignored, and the invariant holds |
| PlaybackTrace.CleanRestarts | nexxt_lan.py:1431-1506 | Over any run, what the player is given is a prefix of the input followed by runs, each a prefix of the latest parameter sets, an access point and the consecutive inputs after it; without overflow nothing is missing |
| PlaybackTrace.AudioConserved | nexxt_lan.py:1485-1506 | Over any run, with the player, queued or dropped are never more audio chunks than were offered, and exactly all of them while the pipe is live, in chunks and in bytes |
| PlaybackFlow.FitsIff | nexxt_lan.py:1413-1418 | A chunk fits if and only if the queue with it is within the byte limit, and within the chunk limit if there is one |
| PlaybackFlow.VideoFlows | nexxt_lan.py:1431-1472 | Over any run, a live video pipe has never overflowed if and only if what was offered and not yet taken was always within the limits; then nothing was dropped and all of it is queued |
| PlaybackFlow.AudioFlows | nexxt_lan.py:1485-1495 | Over any run, a live audio pipe has dropped nothing if and only if the same holds; its overflows are exactly the chunks too large by themselves |
| PlaybackFlow.SmoothIs | nexxt_lan.py:1413-1418 | "Always within the limits" is meant of every prefix of the run |
| PlaybackFlow.AudioOfferIs | nexxt_lan.py:1485-1495 | An audio chunk is queued behind as many of the newest others as fit with it, and drops no more |
| PlaybackFlow.ResumesIff | nexxt_lan.py:1436-1460 | In any run, a waiting pipe goes on with a chunk if and only if it is an access point that fits with the latest parameter sets, and then holds exactly those |
| PlaybackFlow.KindsByByte | nexxt_lan.py:1380-1388 | Which first NAL bytes make an access point or a parameter set |
| PlaybackFlow.KindsWithout | nexxt_lan.py:1380-1388 | The same for chunks without a start code, and for short ones |
| PlaybackFlow.ResyncsCount | nexxt_lan.py:1431-1472 | A video pipe has resumed as often as it has overflowed, one less while it waits |
| PlaybackFlow.VideoConserved | nexxt_lan.py:1431-1472 | With the player, queued or dropped are all chunks offered, less the sets only cached, plus the copies put in front of restarts; in chunks and bytes |
| PlaybackFlow.PeaksAreReached | nexxt_lan.py:1420-1425 | The peaks are the most that was ever queued |
| PlaybackFlow.FailedLaunch | nexxt_lan.py:1390-1411 | A player that cannot be started is given up at the first chunk |
| Stun.Parse | nexxt/udp_protocol.py:109-192 | The loop computes the parse function, reasons for failure included |
| Stun.ParseIff | nexxt/udp_protocol.py:109-192 | A datagram parses to a message if and only if it is that message's header and attributes with some padding bytes |
| Stun.StunRoundTrip | nexxt_lan.py:796-799 | Every attribute list that fits the length field comes back exactly |
| Stun.MessageLayout | nexxt_lan.py:796-799 | The bytes of a message header and of an attribute, padding included |
| Stun.ReasonsAre | nexxt/udp_protocol.py:109-192 | Why a datagram is refused |
| Stun.DeadErrors | nexxt/udp_protocol.py:146-185 | Two of the parser's error returns are never taken |
| Stun.GetAttribute | nexxt/udp_protocol.py:195-210 | The search returns the first attribute of the type, if there is one |
| StunBuild.SealedHasIntegrity | nexxt_lan.py:827-850 | The digest covers the message up to MESSAGE-INTEGRITY under a length that ends with it (section 15.4 of RFC 5389) |
| StunBuild.SealedHasFingerprint | nexxt_lan.py:852-870 | The checksum covers everything before FINGERPRINT and the final length covers it (section 15.5 of RFC 5389) |
| StunBuild.XorBit | nexxt_lan.py:895-896 | Exclusive or, bit by bit |
| StunBuild.BindingRequestIsSound | nexxt_lan.py:802-870 | A request exists if and only if the user name has at most 65464 bytes; it parses back to PRIORITY 1845501695, the tie-breaker, SOFTWARE "3.5.5", USERNAME remote:local, and the two seals, which verify |
| StunBuild.SuccessResponseIsSound | nexxt_lan.py:873-948 | Exactly binding requests are answered, in 76 bytes, with their transaction, the peer's own address bit by bit, SOFTWARE "3.5.5", and the two seals, which verify |

## Left out

- `wndsize`: windows are fixed at construction and positive, since widening the receive window can break the reorder buffer's invariant (`KcpReceive.WidenKeepsIff`, `WidenBreaks`) and narrowing either can leave more in use than it allows; the constructor's refusal of an MTU below 50 is a precondition.
- Segments are values in the class's sequences, not shared objects; the source never aliases one segment in two lists.
- The bits of `probe` are two booleans, `dead_link` has no effect in the source, and the output callback is a list of datagrams that never raises.
- KcpRefine.HostDelivery: is stated for runs of fewer than about 2^31 fragments on any network; for longer runs `WrappedDelivery` asks that the network forgets datagrams whose numbers are nearly 2^31 old, without which 32-bit numbers are ambiguous.
- KcpSystem.DeliveredIsPrefix: numbers do not wrap here; `HostDelivery` and `WrappedDelivery` are the forms for the code. Networks deliver only datagrams one of the peers has sent; the status returns for malformed bytes are in `PythonKCP.Input`, and receive windows are below 2^31 - 2^17.
- KcpDrainHosts.HostBacklogDrains: is about runs of fewer than about 2^31 fragments, `LongBacklogDrains` about longer ones; the rounds are those in which nothing more is lost. A receive window below 127 modulo 65536 is excluded by `Roomy`, exactly (`DrainsIff`).
- KcpDrainLong.LongBacklogDrains: asks that the two receive windows and 65535 together are less than 2^31 and that no pending acknowledgement is nearly half a cycle old, since the first round sends it; `WrappedDelivery`'s condition on the network does not rule the latter out, because a number ages between its arrival and its acknowledgement.
- KcpDrain.RoundShortens: numbers do not wrap here; `HostBacklogDrains` is the form for the code.
- KcpSystem.RunKeepsGood: numbers do not wrap here; `KcpRefine.WrapRun` carries it to the code.
- The native KCP backend and the choice between the two, and the filtering of datagrams in front of `input`.
- Digests, checksums and random bytes are parameters; Mode 3 authentication is not modelled.
- Rtsp.Publication.Consume: transports always work; a failing or slow transport only ends a client's playing. Audio broadcast repeats the same loop without a waiting state.
- Signalling, SDP, RTSP text, sockets, threads, subprocesses and the fan-out queue of `MediaStream` in front of `_consume`; starting the player is a boolean argument of `Offer`, and partial writes to it are not modelled.
- Chunks with no byte after their start code, on which the source raises, are excluded by `HasType`.
- LAN 55AA framing and PKCS#7 padding.
