# KCP engine and thread pool: a verified model

This project models two parts of the repository and proves properties of them in Dafny.

* **The KCP engine** (`KcpUdp/ikcp.c`, `KcpUdp/ikcp.h`): a reliable-transport protocol with selective acknowledgements,
  sliding windows over 32-bit sequence numbers, fragmentation, a retransmission timer, congestion control and zero-window
  probing.
* **The thread pool** (`ThreadPool/ThreadPool.cpp`, `ThreadPool/ThreadPool.h`): one mutex, one condition variable, a FIFO
  queue and a shutdown flag shared by workers, callers of `addTask` and the destructor.

`dafny verify dfyconfig.toml` checks everything.

## How the engine is modelled

Each operation of the engine is a function on a control block (`ControlBlock.dfy`, with its parts in `Serial`, `Wire`,
`Fragments`, `Sender`, `Receiver`, `Estimator` and `Congestion`). These functions take a `Width`: at `W32` sequence numbers
are reduced modulo 2^32 and compared as `_itimediff` does, which is the code; at `Exact` they are unbounded.

* The class `Engine.Kcp` (`Kcp.dfy`) has the mutable fields of `IKCPCB`, with the loops, the counters, the early exits and the
  write pointer through `buffer` of the source. Each of its methods is proved to compute the function of the same name at
  `W32`, and to keep `Valid()` for any arguments and any input bytes.
* `Invariant.dfy` and `Calls.dfy` say what holds after any sequence of calls, with any bytes as input.
* `Emission.dfy`, `Intake.dfy` and `Settings.dfy` say what a flush, an input and the tuning calls must do, by the states before and
  after and the segments exchanged, without mentioning how it is done; `RunRules.dfy` carries this over to every state of every
  run, and `Outbox.dfy` to runs of two endpoints.
* `TwoEndpoints.dfy` joins two endpoints by a network: a step is a call at one endpoint, or the arrival of any datagram the
  other has ever emitted, at any time and any number of times. `EndToEnd.dfy` and `Delivery.dfy` prove what holds over every
  run with unbounded numbers. `Wrapping.dfy` and `Lockstep.dfy` prove that the run of the code, with 32-bit numbers and bytes
  on the wire, is step by step that run with its numbers reduced, as long as every segment that arrives is fresh (`FreshRun`):
  what its `una` removes, whether the number it acknowledges is in flight, and whether its data are kept are decided as with
  unbounded numbers. For each of the three the condition is exact (`Wrapping.UnaExactly`, `AckExactly`, `FreshExactly`). Runs
  in which each side numbers at most 2^31 segments, less the other's window, are always fresh (`ShortRunsAreSafe`).
* `IntrusiveQueue.dfy` has the doubly linked lists at pointer level, with each loop that unlinks while it walks;
  `Queues.dfy` puts the four queues and their counters together, and every operation keeps them disjoint; `SegmentLists.dfy`
  proves that the loops cut the lists where the functions on sequences do.
* `Timers.dfy` is about time: `ikcp_check` against `ikcp_update`, the pacing of flushes, backoff and window probes.
  `RunTimers.dfy` proves that in any sequence of calls the clock, the entries of `snd_buf` and the probe go through just the
  histories studied there, `RunEstimates.dfy` the same of the round-trip estimator of `Estimator.dfy`, and `RunProbes.dfy` what follows for window probes
  and announcements.
* `Witnesses.dfy` has runs from creation in which something one might expect goes wrong.

## How the thread pool is modelled

`ThreadPool.dfy` is a transition system. Workers, calls of `addTask` and `close` each have a program counter; a step is what
one thread does between two points where another may run: taking the mutex, one access under it, releasing it, a
notification, a spurious wakeup. Runs are arbitrary interleavings. `PoolSafety.dfy` has the invariants, `PoolProgress.dfy` the
measure that every step decreases and what holds where no step is left, and `PoolMonitor.dfy` a class whose methods are the
code under the mutex, proved to do what those steps do.

## What the proofs brought to light

* In stream mode a refused `ikcp_send` (`KcpUdp/ikcp.c:500-537`) can leave the first part of its data queued
  (`Witnesses.RefusedSendCanQueue`). In message mode it changes nothing. So the byte-stream theorem compares what was received
  with all bytes ever queued, and with the accepted messages when no send has been refused.
* `ikcp_wndsize` (`KcpUdp/ikcp.c:1411-1422`) can leave a segment in `rcv_buf` that is next and for which it has just made room:
  no loop moves it until the next receive or the next data segment (`Witnesses.GrowthStrands`). This is the only way, and
  exactly when it happens is a test on the state before the call (`Calls.DrainedUnlessStranded`, `Delivery.RunDrains`).
* End-to-end safety needs fresh datagrams, for two reasons. A copy of a datagram that has been in the network while its
  receiver sent 2^31 + 2 more segments can, by its old `una`, drop a segment that nobody has acknowledged and that is then
  never sent again (`Witnesses.OldUnaDropsSegment`; the comparison is at `KcpUdp/ikcp.c:650`). A copy of a data segment that has been there while 2^32 were sent
  is taken for a new one, and its bytes are delivered (`Witnesses.OldBytesAreReadAgain`).
* A data segment so old that 32-bit numbers place it beyond the window is dropped without being acknowledged, which does no
  harm. The run over unbounded numbers does not acknowledge it either (`Receiver.Noted`), so such runs are fresh.
* Retransmission deadlines are compared exactly if and only if the timeout is at most 2^31 ms (`RunTimers.RunsMeetDeadlines`).
  Without no-delay mode up to fifteen timeouts stay below that (`RunTimers.RunsBackOff`); sixteen from the 60 s ceiling do not,
  and the segment is overdue again at the moment it is sent (`Witnesses.SixteenTimeoutsOverflow`).
* An `una` about 2^31 ahead of `snd_una` counts as before the first entry of `snd_buf` but as after a later one; the loop of
  `ikcp_parse_una` then stops at once (`Intake.CornerLeaves`). In every other case a datagram removes just what it says has been
  received (`Intake.RightUnlessSplit`).
* `ikcp_check` counts a deadline exactly 2^31 ms away as reached, which the flush loop does not (`Timers.DueIsOverdue`).
* Window probes carry the `sn` and `ts` of the last acknowledgement in the same flush, because the header is shared
  (`ControlBlock.LastHeader`); receivers ignore both.
* `ikcp_parse_ack` and `ikcp_parse_fastack` give up at the first later number. On every reachable buffer this misses nothing.

## Assumptions

Allocation succeeds. The datagram size and the mode are chosen at creation and then fixed. Receive windows are below 2^31 (at
2^31 the window test of `ikcp_parse_data` would be ambiguous); they may be changed, and shrunk, at any time. Only the
congestion theorems bound the datagram size (65535) and the resend count (32768). Task bodies terminate.

## Model

| member | source | states |
|---|---|---|
| `Lockstep.EndToEndSafety` | KcpUdp/ikcp.c:361-566 | Over every fresh run of two endpoints (32-bit numbers, bytes on the wire) with loss, duplication, delay and reordering in both directions, the messages received are a prefix of the messages accepted, in order and once each; in stream mode the same of the bytes. |
| `Lockstep.ShortRunsAreSafe` | KcpUdp/ikcp.c:361-997 | The same with no assumption about the network, for runs in which neither side numbers more than 2^31 segments less the peer's window. |
| `Lockstep.NothingLost` | KcpUdp/ikcp.c:607-804 | In every state of such a run each number below the sender's `snd_nxt` is in its `snd_buf`, in the peer's `rcv_buf`, or below the peer's `rcv_nxt`; `snd_nxt` and `rcv_nxt` count what was numbered and what was put in order, fewer than 2^32 apart, and what was put in order is what was sent. |
| `Lockstep.EveryReceiveYieldsNext` | KcpUdp/ikcp.c:361-442 | In every state of a fresh run, in message mode, a receive returns the next accepted message exactly when all its fragments are queued and the buffer is large enough, and otherwise -1, -2 or -3 as the case may be. |
| `Lockstep.NothingStaysBehind` | KcpUdp/ikcp.c:361-1276 | In every state of a fresh run with a quiet sender and room in the receive queue: everything sent is in order if and only if the receive buffer is drained, which holds if no `ikcp_wndsize` strands a segment; once read, everything accepted has been delivered. |
| `Lockstep.NoReassemblyDeadlock` | KcpUdp/ikcp.c:383-469 | Whenever a receive queue is full in message mode, its first message is wholly present, is the next accepted one, and any receive with room returns it. |
| `Lockstep.RunWrap` | KcpUdp/ikcp.c:136-139 | A fresh run of the code is step by step the run over unbounded sequence numbers, reduced modulo 2^32, bytes included. |
| `Lockstep.ShortIsFresh` | KcpUdp/ikcp.c:136-139 | Whatever the network does, a run in which each side numbers at most 2^31 segments, less the peer's receive window, meets the freshness condition. |
| `Outbox.NothingUnsent` | KcpUdp/ikcp.c:1148-1252 | In every state of every run of two endpoints, at either width, each entry of either `snd_buf` is, just as it stands there, a PUSH in some datagram its side has handed to the output. |
| `RunRules.RunsFlush` | KcpUdp/ikcp.c:1045-1276 | In any run, each call that flushes obeys the rules of `Emission`: a PUSH for each entry newly numbered, timed out or overtaken often enough and for no other, restamped and rescheduled; all other entries untouched; one ACK for each pair of `acklist` in order and no other; what becomes of `cwnd`, `ssthresh`, `incr`, `xmit` and `state`. |
| `RunRules.RunsTake` | KcpUdp/ikcp.c:872-883 | In any run, a datagram leaves in `snd_buf` exactly the numbers that are serially at or after each of its `una` and not acknowledged by number, unless some `una` is about 2^31 ahead. |
| `RunRules.RunsAcknowledge` | KcpUdp/ikcp.c:913-1085 | In any run, each data segment the receive window holds when it comes in is acknowledged, by number and time stamp, in the next flush, whatever calls come in between (windows up to 2^30). |
| `Emission.FlushIsRight` | KcpUdp/ikcp.c:1045-1276 | The same rules for a flush in any state of the invariant, at either width. |
| `Emission.FlushEmits` | KcpUdp/ikcp.c:1064-1252 | They hold of what a peer decodes from the bytes of the datagrams. |
| `Intake.InputTakes` | KcpUdp/ikcp.c:872-883 | `ikcp_input` of arbitrary bytes, accepted or not, takes out of `snd_buf` exactly the numbers that some segment says have been received. |
| `Intake.InputLeaves` | KcpUdp/ikcp.c:962-964 | The entries it leaves stay as they are, except that each is counted as overtaken, once, exactly if an accepted datagram acknowledges a later number. |
| `Intake.UnaTakesExactly` | KcpUdp/ikcp.c:644-659 | For any `una`: the loop leaves the entries not before it, and those in its corner, 2^31 away. |
| `Intake.SegmentTakes` | KcpUdp/ikcp.c:872-883 | One segment leaves exactly the entries it does not say have been received, if and only if none lies in that corner. |
| `Intake.RightUnlessSplit` | KcpUdp/ikcp.c:872-883 | The same after every part of a datagram: if and only if no segment meets the corner. |
| `Intake.CornerLeaves` | KcpUdp/ikcp.c:644-659 | A buffer and an `una` for which an entry is left that the `una` is after. |
| `Intake.InputAcks` | KcpUdp/ikcp.c:913-914 | `acklist` grows by one pair, number and time stamp, for each data segment before or inside the window as it then is, in order, and by nothing else. |
| `Intake.InputAcknowledges` | KcpUdp/ikcp.c:913-914 | In particular for each that the window holds before the call. |
| `Intake.InputHeaders` | KcpUdp/ikcp.c:871-942 | `rmt_wnd` is the window of the last segment, whatever its command; an announcement is due if and only if it was, or the peer asks. |
| `Intake.InputOpens` | KcpUdp/ikcp.c:970-994 | The congestion window opens exactly if something new is acknowledged and it is below the peer's: by one in slow start, and beyond the threshold as congestion avoidance has it, with no overflow. |
| `Intake.InputVerdict` | KcpUdp/ikcp.c:838-869 | For any bytes: what the return value says of the first header that is wrong, and that the segments in front of it are those decoded. |
| `Intake.InputAccepts` | KcpUdp/ikcp.c:838-996 | 0 is returned exactly for well-formed segments of this conversation with fewer than 24 bytes behind. |
| `Settings.LastValueHolds` | KcpUdp/ikcp.c:1376-1422 | Over any run each setting (mode, minimum timeout, interval, early resends, congestion switch, both windows) has the value that the last call giving it said: intervals as given within [10, 5000], receive windows of at least 128. |
| `Settings.FirstValueHolds` | KcpUdp/ikcp.c:1376-1422 | And the value of the start if no call has given it. |
| `Settings.WithoutCongestion` | KcpUdp/ikcp.c:1137-1170 | With `nc > 0` last given, a flush empties `snd_queue` or leaves as many numbers unacknowledged as the smaller of `snd_wnd` and `rmt_wnd`, whatever `cwnd`. |
| `Settings.WithCongestion` | KcpUdp/ikcp.c:1137-1170 | Otherwise it fills the smallest of the three windows, and puts no number beyond it in flight. |
| `Wrapping.UnaExactly` | KcpUdp/ikcp.c:644-659 | The freshness condition on `una` is exact: it holds if and only if the 32-bit loop leaves of `snd_buf` what it leaves with unbounded numbers. |
| `Wrapping.AckExactly` | KcpUdp/ikcp.c:619-640 | The freshness condition on an acknowledged number is exact: it holds if and only if the 32-bit test takes the number for one in flight just when it is. |
| `Wrapping.FreshExactly` | KcpUdp/ikcp.c:754-937 | The freshness condition on data segments is exact: it holds if and only if the 32-bit receiver keeps the segment just when unbounded numbers would, and acknowledges none beyond the window. |
| `Wrapping.MistakenExactly` | KcpUdp/ikcp.c:760-761 | Exactly which numbers the 32-bit window test misjudges: those outside the window whose distance modulo 2^32 falls into it. |
| `Witnesses.OldBytesAreReadAgain` | KcpUdp/ikcp.c:754-804 | A run from creation: after 2^32 messages, a copy of the first datagram hands its byte to the application again as the next message. |
| `Witnesses.OldUnaDropsSegment` | KcpUdp/ikcp.c:644-659 | A run from creation: after 2^31 + 2 messages sent and acknowledged, one more is sent; a copy of the datagram that acknowledged the first empties `snd_buf`, and `snd_una` passes the segment that nobody has acknowledged. |
| `EndToEnd.RunOk` | KcpUdp/ikcp.c:607-997 | Every run over unbounded numbers keeps: nothing lost, every data segment in flight genuine, every acknowledgement and every `una` in flight truthful. |
| `EndToEnd.ActOk` | KcpUdp/ikcp.c:607-1276 | Each single call or arrival keeps that, for any datagram ever emitted. |
| `Delivery.RunApp` | KcpUdp/ikcp.c:361-566 | Every run keeps the relation between what the applications sent and received, in both modes. |
| `Delivery.InOrderOnce` | KcpUdp/ikcp.c:361-566 | In every reachable state the messages delivered are a prefix of those accepted, and the bytes of those queued. |
| `Delivery.FullQueueIsReadable` | KcpUdp/ikcp.c:383-469 | A full queue in a reachable state starts with a complete message, because a message has at most 127 fragments and the window is at least 128. |
| `Delivery.ReceiveYieldsNext` | KcpUdp/ikcp.c:361-442 | Over unbounded numbers, in message mode: a receive returns the next accepted message exactly when all its fragments have arrived in order and the buffer is large enough; otherwise which error it returns. |
| `Delivery.QuietMeansDelivered` | KcpUdp/ikcp.c:361-1276 | Over unbounded numbers: when the sender has nothing queued or unacknowledged and the receive queue has room, everything sent is in order at the receiver if and only if its buffer is drained; and then, once that queue is empty, exactly the accepted messages (or all bytes taken) have been delivered. |
| `Delivery.RunDrains` | KcpUdp/ikcp.c:754-804 | Over every two-endpoint run, with any network: both receive buffers are drained in every state if and only if no `ikcp_wndsize` makes room for a buffered segment that is next. |
| `Delivery.ActDrains` | KcpUdp/ikcp.c:754-804 | One action keeps the invariant at its endpoint, and the drained state exactly unless it is such a call. |
| `Link.DrainRight` | KcpUdp/ikcp.c:793-804 | Moving segments in order extends what has been received by exactly the next fragments that were sent, and loses nothing held. |
| `Link.RcvInputRight` | KcpUdp/ikcp.c:913-937 | A genuine data segment keeps the receiver's contents right, and every acknowledgement queued for it is of a number held. |
| `Link.SndInputLoses` | KcpUdp/ikcp.c:607-659 | An entry that one incoming segment removes from `snd_buf` was before its `una`, or is the very number acknowledged. |
| `Link.SndInputNoLoss` | KcpUdp/ikcp.c:872-883 | A truthful segment removes nothing the receiver does not hold. |
| `Link.MovedRight` | KcpUdp/ikcp.c:1148-1170 | Segments moved into `snd_buf` take the next numbers and the next fragments, so genuineness and no-loss are kept. |
| `Calls.AnyCallsKeep` | KcpUdp/ikcp.c:231-1422 | After any sequence of calls, with any bytes as input, both windows are well-formed, the receive buffer lies inside the largest window configured and all timers are in range. |
| `Calls.AnyCallsDrain` | KcpUdp/ikcp.c:754-804 | After any sequence of calls in which no window shrinks and no `ikcp_wndsize` strands a segment, the receive buffer lies inside the window in force and is drained as far as possible. |
| `Calls.DrainedUnlessStranded` | KcpUdp/ikcp.c:754-804 | For any sequence of calls with any bytes: the buffer is drained in every state if and only if no `ikcp_wndsize` finds the segment that is next kept out by a full queue and makes room for it. |
| `Calls.ApplyDrains` | KcpUdp/ikcp.c:793-804 | For each call, from a drained state: the buffer stays drained if and only if the call is not one of those. |
| `Calls.WindowHolds` | KcpUdp/ikcp.c:754-804 | After any sequence of calls in which no window shrinks, the receive buffer lies inside the window in force. |
| `Witnesses.GrowthStrands` | KcpUdp/ikcp.c:1411-1422 | A run from creation: 129 segments arrive, which leaves the buffer drained; then the window grows to 129, and the next segment stays in `rcv_buf` although there is room. |
| `Calls.AnyCallsAccount` | KcpUdp/ikcp.c:970-1275 | Congestion accounting over any sequence of calls: `abs(incr - cwnd * mss) < mss` and `ssthresh >= 2` always, `cwnd >= 1` from the first flush on. |
| `Calls.ApplyOk` | KcpUdp/ikcp.c:607-1422 | One call keeps the invariant and the drained state, and never moves `snd_una` backward. |
| `Calls.ApplyCong` | KcpUdp/ikcp.c:970-1275 | One call keeps the accounting; one input raises `cwnd` by at most 2; after any call that flushes, directly or by an update, `cwnd >= 1`, and it stays so. |
| `Invariant.InputBytesOk` | KcpUdp/ikcp.c:828-997 | `ikcp_input` keeps the invariant for arbitrary bytes, malformed or not, and `snd_una` only advances. |
| `Invariant.InputCong` | KcpUdp/ikcp.c:970-994 | For arbitrary input the congestion accounting is kept and `cwnd` grows by at most 2. |
| `Invariant.FlushOk` | KcpUdp/ikcp.c:1045-1276 | `ikcp_flush` keeps the invariant. |
| `Invariant.FlushCong` | KcpUdp/ikcp.c:1255-1275 | A flush keeps the congestion accounting and leaves `cwnd >= 1`. |
| `Invariant.FlushFits` | KcpUdp/ikcp.c:1072-1252 | Every segment of a flush fits into a datagram. |
| `Invariant.FlushOnTheWire` | KcpUdp/ikcp.c:843-1252 | The decoding loop, applied to any datagram of a flush, returns exactly its segments; each datagram is non-empty and at most `mtu` bytes. |
| `Invariant.UpdateOk` | KcpUdp/ikcp.c:1284-1309 | `ikcp_update` keeps the invariant at any clock reading. |
| `Invariant.WndSizeOk` | KcpUdp/ikcp.c:1411-1422 | Changing the windows, also to smaller ones, keeps the invariant for the larger limit. |
| `Invariant.TuningOk` | KcpUdp/ikcp.c:1376-1408 | The tuning calls keep the invariant for any arguments. |
| `Invariant.SendOk` | KcpUdp/ikcp.c:490-566 | `ikcp_send` keeps the invariant, refused or not. |
| `Invariant.RecvOk` | KcpUdp/ikcp.c:361-442 | `ikcp_recv` keeps the invariant. |
| `Invariant.CreateOk` | KcpUdp/ikcp.c:231-294 | The invariant holds at creation. |
| `Serial.DiffIsSerialOrder` | KcpUdp/ikcp.c:136-139 | `_itimediff` decides the order of section 3.2 of RFC 1982, except that a distance of exactly 2^31 counts as negative. |
| `Serial.DiffExact` | KcpUdp/ikcp.c:136-139 | For unbounded numbers less than 2^31 apart the wrapped difference is the true one. |
| `Serial.DiffExactOnlyThen` | KcpUdp/ikcp.c:136-139 | ... and only for those. |
| `Serial.WindowTest` | KcpUdp/ikcp.c:760-761 | The two comparisons of the window test hold exactly for the numbers in [base, base + width), for every width below 2^31. |
| `Wire.UnLeOfLe` | KcpUdp/ikcp.c:54-121 | Decoding inverts encoding of a field. |
| `Wire.LeOfUnLe` | KcpUdp/ikcp.c:54-121 | Encoding inverts decoding of a field. |
| `Wire.ParseOfEncode` | KcpUdp/ikcp.c:843-1014 | The decoding loop returns exactly the segments encoded, for every list of well-formed segments. |
| `Wire.EncodeOfParse` | KcpUdp/ikcp.c:843-960 | For any bytes, what the loop decodes, encoded again, is the front of the input, and the code says what is wrong with the header behind it: nothing exactly when fewer than 24 bytes are left over. |
| `Wire.PackFits` | KcpUdp/ikcp.c:1072-1252 | Packing keeps all segments in order, in non-empty datagrams of at most `mtu` bytes. |
| `Wire.PackIsTight` | KcpUdp/ikcp.c:1229-1247 | No datagram ends before the next segment would no longer fit into it. |
| `Wire.FlushRoundTrip` | KcpUdp/ikcp.c:843-1252 | Every datagram of a packing decodes to its segments, and all of them together to the segments packed. |
| `Wire.GluedRoundTrip` | KcpUdp/ikcp.c:843-960 | Any number of datagrams glued together decode to the segments of all of them. |
| `Fragments.FragmentShape` | KcpUdp/ikcp.c:533-563 | A message becomes max(1, ceil(len / mss)) fragments of at most mss bytes, `frg` counting down to 0, which joined give the message back. |
| `Fragments.SendBytes` | KcpUdp/ikcp.c:490-566 | A send queues exactly the bytes it took, behind those queued before, in both modes. |
| `Fragments.SendAccepts` | KcpUdp/ikcp.c:500-537 | In both modes a send is refused if and only if more than 127 full segments are left after the last queued segment has taken what it can. |
| `Fragments.StreamShape` | KcpUdp/ikcp.c:502-563 | An accepted send in stream mode fills up the last queued segment and adds as few segments as hold the rest: all full but the last, `frg` 0. |
| `Fragments.RefusedSend` | KcpUdp/ikcp.c:500-537 | A refused send changes nothing if and only if it is in message mode, or nothing is queued, or the last queued segment is full. |
| `Witnesses.RefusedSendCanQueue` | KcpUdp/ikcp.c:500-537 | For every permitted datagram size, a run from creation in which a refused stream-mode send fills up the last queued segment. |
| `Fragments.MergeLength` | KcpUdp/ikcp.c:388-469 | The merge loop of `ikcp_recv` yields as many bytes as `ikcp_peeksize` adds up, for any queue: the assertion in the source. |
| `Fragments.ReassembleFragment` | KcpUdp/ikcp.c:388-415 | Reassembly inverts fragmentation, whatever is queued behind. |
| `Fragments.PartialFragment` | KcpUdp/ikcp.c:447-469 | While a fragment of the first message is missing, nothing can be received. |
| `Fragments.ReceiveNext` | KcpUdp/ikcp.c:361-469 | On a queue cut from a list of messages a receive succeeds exactly when the next one is complete, and yields it. |
| `SendWindow.UnaDrops` | KcpUdp/ikcp.c:644-659 | The loop of `ikcp_parse_una` drops the entries before `una` and no other. |
| `SendWindow.UnaBehind` | KcpUdp/ikcp.c:644-659 | A stale or nonsensical `una` drops nothing. |
| `SendWindow.RemoveAckedIsWithout` | KcpUdp/ikcp.c:619-640 | The early break of `ikcp_parse_ack` misses nothing: the result is the buffer without that number. |
| `SendWindow.ParseAckIs` | KcpUdp/ikcp.c:619-640 | An acknowledgement acts exactly when its number is inside [snd_una, snd_nxt), and then removes just that number. |
| `SendWindow.CountSkippedIsMap` | KcpUdp/ikcp.c:664-692 | `ikcp_parse_fastack` counts every overtaken entry and no other, in spite of its early break. |
| `SendWindow.ShrinkKeeps` | KcpUdp/ikcp.c:607-617 | `ikcp_shrink_buf` moves `snd_una` forward to the head, and re-establishes the window invariant. |
| `SendWindow.SndInputKeeps` | KcpUdp/ikcp.c:872-883 | The sender-window invariant survives any segment; `snd_una` never moves backward nor beyond `snd_nxt`. |
| `SendWindow.MoveToBufKeeps` | KcpUdp/ikcp.c:1148-1170 | Filling the window keeps the invariant, whatever window the peer advertises. |
| `SendWindow.MoveToBufFills` | KcpUdp/ikcp.c:1148-1170 | After filling, nothing is queued or the window is full, and it was not exceeded. |
| `SendWindow.MoveToBufParts` | KcpUdp/ikcp.c:1148-1170 | The segments moved are a front part of the queue, numbered consecutively from `snd_nxt`. |
| `SendWindow.SweepKeeps` | KcpUdp/ikcp.c:1186-1246 | The transmission loop changes timers and counters only. |
| `Sender.SweepIsMap` | KcpUdp/ikcp.c:1186-1246 | The transmission loop updates each entry on its own, as its own state and the flush parameters say. |
| `Sender.SweepSignals` | KcpUdp/ikcp.c:1186-1246 | The loop reports a timeout, or an early resend, exactly when some entry had one. |
| `Sender.SweepSends` | KcpUdp/ikcp.c:1186-1246 | The segments sent are exactly the entries that were due, each with its new stamps. |
| `Receiver.InsertNew` | KcpUdp/ikcp.c:767-785 | The backward search stops at the one place that keeps the order, and the segment is put there. |
| `Receiver.InsertRepeated` | KcpUdp/ikcp.c:767-785 | A number already present leaves the buffer as it is. |
| `Receiver.InsertKeeps` | KcpUdp/ikcp.c:767-785 | The buffer stays ascending, holds the number, and gains exactly the new segment. |
| `Receiver.DrainKeeps` | KcpUdp/ikcp.c:793-804 | The moving loop keeps the invariant and drains the buffer as far as possible. |
| `Receiver.ParseDataKeeps` | KcpUdp/ikcp.c:754-804 | `ikcp_parse_data` keeps the receive-window invariant and the drained state for any number. |
| `Receiver.RcvInputKeeps` | KcpUdp/ikcp.c:913-937 | So does the whole treatment of a data segment. |
| `Receiver.RecvKeeps` | KcpUdp/ikcp.c:361-442 | `ikcp_recv` keeps the invariant; a successful one re-establishes the drained state from any state. |
| `Receiver.RecvLength` | KcpUdp/ikcp.c:361-442 | A successful receive returns exactly as many bytes as announced, for any queue contents. |
| `Estimator.RtoBounded` | KcpUdp/ikcp.c:587-604 | After every sample `rx_rto` is between `rx_minrto` and 60 s. |
| `Estimator.NoOverflow` | KcpUdp/ikcp.c:587-604 | With samples in [0, R], R < 2^28, an update keeps `rx_srtt` and `rx_rttval` in [0, R] and is exact: no 32-bit overflow. |
| `RunEstimates.RttIsSamples` | KcpUdp/ikcp.c:587-604 | In any sequence of calls, with any bytes, the estimator is what the acknowledgements taken in make of it, one sample for each whose time stamp is not in the future. |
| `RunEstimates.RunsEstimate` | KcpUdp/ikcp.c:587-604 | So in any run whose samples stay at most `bound` < 2^28 ms nothing overflows: the three estimates equal the unbounded ones, `rx_srtt` and `rx_rttval` stay in [0, bound], and the timeout lies between the `rx_minrto` of the last sample and 60 s, and is at least `rx_srtt` plus one interval unless cut at 60 s. |
| `Congestion.GrowKeeps` | KcpUdp/ikcp.c:970-994 | Opening the window keeps the accounting and adds at most 2. |
| `Congestion.CreepKeeps` | KcpUdp/ikcp.c:970-994 | So does the congestion-avoidance branch on its own, with its division. |
| `Congestion.AfterFlushKeeps` | KcpUdp/ikcp.c:1255-1275 | Closing the window after losses keeps the accounting, `ssthresh >= 2` and `cwnd >= 1`. |
| `Engine.Kcp.constructor` | KcpUdp/ikcp.c:231-294 | The new object is valid and is `Create`. |
| `Engine.Kcp.Recv` | KcpUdp/ikcp.c:361-442 | The method leaves exactly the state, code and bytes of `DoRecv`, and keeps `Valid()`. |
| `Engine.Kcp.Peek` | KcpUdp/ikcp.c:447-469 | The loop computes `PeekSize`. |
| `Engine.Kcp.Merge` | KcpUdp/ikcp.c:388-415 | The loop takes the first message off the queue, or leaves it when peeking, and returns its bytes. |
| `Engine.Kcp.Send` | KcpUdp/ikcp.c:490-566 | The method leaves exactly the queue and code of `DoSend`, including the stream-mode extension of the last segment. |
| `Engine.Kcp.Enqueue` | KcpUdp/ikcp.c:540-563 | The cutting loop appends the pieces of the data. |
| `Engine.Kcp.Input` | KcpUdp/ikcp.c:828-997 | For arbitrary bytes the method leaves exactly the state and code of `InputBytes`, keeps `Valid()` and the drained state, and only advances `snd_una`. |
| `Engine.Kcp.DropBefore` | KcpUdp/ikcp.c:644-659 | The loop computes `ParseUna`. |
| `Engine.Kcp.DropAcked` | KcpUdp/ikcp.c:619-640 | The loop computes `ParseAck`. |
| `Engine.Kcp.CountOvertaken` | KcpUdp/ikcp.c:664-692 | The loop computes `ParseFastack`, updating in place. |
| `Engine.Kcp.Place` | KcpUdp/ikcp.c:767-785 | The backward search and insertion compute `Insert`. |
| `Engine.Kcp.MoveReceived` | KcpUdp/ikcp.c:793-804 | The loop computes `Drain`. |
| `Engine.Kcp.Flush` | KcpUdp/ikcp.c:1045-1276 | The method, writing through its pointer into one buffer, leaves the state of `DoFlush` and emits the bytes of its datagrams; the state and what a peer decodes obey the rules of `Emission`. |
| `Engine.Kcp.FlushAcks` | KcpUdp/ikcp.c:1072-1084 | The acknowledgement loop emits one segment per queued acknowledgement. |
| `Engine.Kcp.MoveQueued` | KcpUdp/ikcp.c:1148-1170 | The loop computes `MoveToBuf`. |
| `Engine.Kcp.SweepOut` | KcpUdp/ikcp.c:1186-1246 | The transmission loop computes `SweepBuf` and writes what it sends. |
| `Engine.Kcp.Emit` | KcpUdp/ikcp.c:1072-1132 | Writing a segment through the pointer is one step of the packing. |
| `Engine.Kcp.Update` | KcpUdp/ikcp.c:1284-1309 | The method leaves exactly the state of `DoUpdate` and emits its datagrams. |
| `Engine.Kcp.Check` | KcpUdp/ikcp.c:1321-1357 | The method computes `DoCheck`. |
| `Engine.Kcp.WndSize` | KcpUdp/ikcp.c:1411-1422 | The method computes `DoWndSize`. |
| `Engine.Kcp.NoDelay` | KcpUdp/ikcp.c:1384-1408 | The method computes `DoNoDelay`. |
| `Engine.Kcp.SetInterval` | KcpUdp/ikcp.c:1376-1382 | The method computes `DoInterval`. |
| `Timers.CheckIsSafe` | KcpUdp/ikcp.c:1284-1357 | At every time before the one `ikcp_check` returns, an update neither flushes nor moves `ts_flush` and no segment is overdue; the time is at most `interval` away. |
| `Timers.CheckIsTight` | KcpUdp/ikcp.c:1321-1357 | At the time returned an update flushes, or a deadline is reached, or a whole interval has passed. |
| `Timers.DueIsOverdue` | KcpUdp/ikcp.c:1321-1357 | `ikcp_check` and the flush loop disagree about a deadline only when it is exactly 2^31 ms away. |
| `Timers.DelayExactly` | KcpUdp/ikcp.c:1189-1219 | A deadline at most 2^31 ms after sending is found reached exactly from then on; a longer one is not, and is taken for past at once: an if and only if. |
| `Timers.ResentExactly` | KcpUdp/ikcp.c:1189-1219 | After a retransmission the deadline is compared exactly if and only if the timeout is at most 2^31 ms. |
| `Timers.DeadlineExact` | KcpUdp/ikcp.c:1189-1219 | While k <= 15, a retransmitted segment is found overdue exactly from its timeout on, until the clock has gone 2^31 ms further. |
| `Timers.FirstDeadlineExact` | KcpUdp/ikcp.c:1190-1195 | A segment sent for the first time is found overdue exactly from `rx_rto + rtomin` on. |
| `Timers.XmitCounts` | KcpUdp/ikcp.c:1189-1219 | However many flushes look at an entry, it has been sent once, once more for each timeout and at most five times early, as long as `xmit` does not overflow. |
| `Witnesses.SixteenTimeoutsOverflow` | KcpUdp/ikcp.c:1189-1219 | A run from creation with sixteen updates, each when the segment is due: its timeout is then 3932160000 ms, and it is overdue at the moment it is sent. |
| `Timers.FlushProbesExactly` | KcpUdp/ikcp.c:1115-1132 | A flush emits a window question exactly when the timer asks, and an announcement exactly when one is requested. |
| `Timers.QuestionIsAnswered` | KcpUdp/ikcp.c:939-942 | Taking in a window question requests an announcement, whatever else the datagram holds. |
| `Timers.AnswerAtNextFlush` | KcpUdp/ikcp.c:939-1132 | The next flush sends it, whatever calls come in between. |
| `Invariant.RecvTells` | KcpUdp/ikcp.c:383-439 | A receive requests an announcement if and only if it succeeds and takes the queue from full to not full; otherwise it leaves the request alone. |
| `RunProbes.ReopenedIsAnnounced` | KcpUdp/ikcp.c:434-1132 | In any run, the next flush after such a receive announces the window, whatever calls come in between. |
| `RunProbes.RunsWait` | KcpUdp/ikcp.c:1087-1107 | In a zero-window stretch of any run the wait is 7 s once started and half as long again after each question, up to 120 s from the eighth on. |
| `RunProbes.OpenStops` | KcpUdp/ikcp.c:1108-1112 | A flush with the peer's window open stops the timer. |
| `Timers.UpdateFlushesExactly` | KcpUdp/ikcp.c:1284-1309 | An update flushes if and only if it is the first, or `ts_flush` has been reached, or the clock is more than 10 s before it. |
| `RunTimers.ClockIsTicks` | KcpUdp/ikcp.c:1284-1309 | In any sequence of calls that leaves the interval alone, the clock and the updates that flush are what the flush timer makes of the update times. |
| `RunTimers.RunsArePaced` | KcpUdp/ikcp.c:1284-1309 | So in any such run with a monotone clock the first update flushes, the k-th flushing update comes no earlier than k intervals later, and after every update the last flush is less than one interval back and `ts_flush` lies in (current, current + interval]. |
| `RunTimers.ApplyEntry` | KcpUdp/ikcp.c:607-1246 | One call takes an entry of `snd_buf` through at most one event (looked at by a flush, or overtaken), or sends it for the first time. |
| `RunTimers.EntryIsLive` | KcpUdp/ikcp.c:607-1246 | In any sequence of calls, every entry of `snd_buf` is what the events since its first transmission make of it. |
| `RunTimers.RunsBackOff` | KcpUdp/ikcp.c:1189-1219 | So in any run without no-delay mode, of any length, an entry that has timed out k <= 16 times has a timeout between 2^k times its first one and 2^k * 60000, which for k <= 15 is below 2^31. |
| `RunTimers.RunsMeetDeadlines` | KcpUdp/ikcp.c:1189-1219 | In any run, of any length and in any mode, an entry last resent at a given time is found overdue exactly from its timeout on, until the clock has gone 2^31 ms past it, if and only if the timeout is at most 2^31 ms; unless it has timed out so often that `xmit` overflows. |
| `RunTimers.ProbeIsEpisode` | KcpUdp/ikcp.c:1087-1112 | In any stretch of calls with the peer's window at zero, the probe goes through the flushes of an episode. |
| `RunTimers.RunsProbe` | KcpUdp/ikcp.c:1087-1132 | After any sequence of calls, a call that flushes while the peer's window is zero emits a window question exactly when the deadline has been reached, and sets the next deadline at most 120 s ahead. |
| `RunTimers.WaitNeverDrops` | KcpUdp/ikcp.c:1087-1112 | Over any stretch of calls with the peer's window at zero, `probe_wait` does not decrease. |
| `IntrusiveQueue.Init` | KcpUdp/ikcp.h:151-152 | The list is empty. |
| `IntrusiveQueue.Add` | KcpUdp/ikcp.h:165-167 | The node is inserted behind `p`, and both directions of the ring agree. |
| `IntrusiveQueue.AddTail` | KcpUdp/ikcp.h:169-171 | The node is appended. |
| `IntrusiveQueue.Del` | KcpUdp/ikcp.h:175-178 | The node is taken out and its links cleared. |
| `IntrusiveQueue.IsEmpty` | KcpUdp/ikcp.h:183 | The test says whether the sequence is empty. |
| `IntrusiveQueue.DropBefore` | KcpUdp/ikcp.c:644-659 | The loop that unlinks while it walks removes exactly the leading numbers before `una`, and counts them off. |
| `IntrusiveQueue.DropAcked` | KcpUdp/ikcp.c:619-640 | The loop unlinks exactly the node found before any later number, and counts it off. |
| `IntrusiveQueue.DropMessage` | KcpUdp/ikcp.c:388-415 | The merge loop, which steps on before unlinking, removes exactly the first message and counts it off, or nothing when peeking. |
| `IntrusiveQueue.Place` | KcpUdp/ikcp.c:767-785 | The backward walk inserts at the place `FindSpot` gives, and counts, or reports a repeated number. |
| `IntrusiveQueue.MoveReceived` | KcpUdp/ikcp.c:793-804 | The moving loop takes the numbers in order, as far as there is room, from one list to the other, and keeps both counters. |
| `IntrusiveQueue.InOrderNext` | KcpUdp/ikcp.c:793-804 | The moving loop's test at each turn decides exactly whether the in-order stretch goes on. |
| `IntrusiveQueue.MoveQueued` | KcpUdp/ikcp.c:1148-1170 | The flush loop moves exactly the segments the window has room for, in order, to the other list, gives them the numbers from `snd_nxt` on, and keeps both counters. |
| `IntrusiveQueue.FittingNext` | KcpUdp/ikcp.c:1148-1170 | The window test at each turn decides exactly whether another segment fits. |
| `IntrusiveQueue.ReplaceTail` | KcpUdp/ikcp.c:502-526 | Appending the longer copy and unlinking the old tail replaces the last node. |
| `Queues.Lists.constructor` | KcpUdp/ikcp.c:262-269 | The four queues are empty and disjoint, the counters zero. |
| `Queues.Lists.Enqueue` | KcpUdp/ikcp.c:540-563 | Appending a new segment keeps the four queues disjoint rings with their lengths as counters. |
| `Queues.Lists.Extend` | KcpUdp/ikcp.c:502-526 | So does the tail replacement of stream mode. |
| `Queues.Lists.ParseUna` | KcpUdp/ikcp.c:644-659 | So does the loop of `ikcp_parse_una`. |
| `Queues.Lists.ParseAck` | KcpUdp/ikcp.c:619-640 | So does the loop of `ikcp_parse_ack`. |
| `Queues.Lists.PlaceNew` | KcpUdp/ikcp.c:767-785 | So does placing a received segment, or finding it repeated. |
| `Queues.Lists.TakeMessage` | KcpUdp/ikcp.c:388-415 | So does the merge loop, peeking or not. |
| `Queues.Lists.Receive` | KcpUdp/ikcp.c:793-804 | So does the loop from `rcv_buf` to `rcv_queue`, which moves exactly the in-order stretch. |
| `Queues.Lists.Fill` | KcpUdp/ikcp.c:1148-1170 | So does the loop from `snd_queue` to `snd_buf`, which moves exactly what fits and gives the moved nodes `snd_nxt`, `snd_nxt + 1` and so on. |
| `Queues.InOneList` | KcpUdp/ikcp.c:388-432 | In such a partition no node occurs twice, in one list or in two. |
| `Queues.ShiftedApart` | KcpUdp/ikcp.c:793-804 | Disjointness of all lists survives moving any number of nodes from one to another. |
| `SegmentLists.ParseUnaCuts` | KcpUdp/ikcp.c:644-659 | The pointer loop and the sequence function cut at the same place. |
| `SegmentLists.RemoveAckedCuts` | KcpUdp/ikcp.c:619-640 | The same for a single acknowledgement. |
| `SegmentLists.InsertCuts` | KcpUdp/ikcp.c:767-785 | The same for insertion. |
| `SegmentLists.DrainCuts` | KcpUdp/ikcp.c:793-804 | The same for the moving loop: contents of both queues and `rcv_nxt`. |
| `SegmentLists.MoveToBufCuts` | KcpUdp/ikcp.c:1148-1170 | The same for filling the window: which segments move, their numbers, and `snd_nxt`. |
| `SegmentLists.RecvCuts` | KcpUdp/ikcp.c:388-415 | The same for the merge loop. |
| `PoolSafety.RunSafe` | ThreadPool/ThreadPool.cpp:29-105 | Every interleaving keeps mutual exclusion, orderly shutdown, attended queues and the accounting of tasks. |
| `PoolSafety.SectionsAreSound` | ThreadPool/ThreadPool.cpp:81-105 | `front()` is never called on an empty queue, and no two threads are in a critical section at once. |
| `PoolSafety.NoTaskWaitsForASleeper` | ThreadPool/ThreadPool.cpp:29-49 | While a worker is blocked and no `notify_all` is owed, queued tasks never outnumber the workers on their way to the queue and the notifications still owed. |
| `PoolSafety.NoLostWakeup` | ThreadPool/ThreadPool.cpp:29-49 | While the pool is open and a task is queued, some worker is awake or a notification is owed. |
| `PoolSafety.StartedInOrder` | ThreadPool/ThreadPool.cpp:29-105 | Until `close`, the tasks pushed are those started and those queued, in order; each start is running on one worker or finished. |
| `PoolSafety.ClosingDropsOneStretch` | ThreadPool/ThreadPool.cpp:51-57 | With `close`, the tasks pushed are those started before, those dropped, those started after and those queued, in this order. |
| `PoolSafety.ExitLeavesNothing` | ThreadPool/ThreadPool.cpp:92-96 | No worker leaves while a task waits: whatever was pushed while it was there, also after `close`, has been started or dropped when it has gone. |
| `PoolProgress.RunsEnd` | ThreadPool/ThreadPool.cpp:29-105 | Without new calls and spurious wakeups every interleaving ends within a number of steps known beforehand. |
| `PoolProgress.EveryTaskIsRun` | ThreadPool/ThreadPool.cpp:81-105 | An open pool comes to rest only when every task ever pushed has been started in order and has finished, and all workers wait. |
| `PoolProgress.NoneBlocksAgain` | ThreadPool/ThreadPool.cpp:51-57 | Once `close` has notified, no worker is blocked in any later state. |
| `PoolProgress.ClosingEnds` | ThreadPool/ThreadPool.cpp:51-65 | From then on, without new calls, every run ends within the measure, and where it can go no further all workers have exited and the joins have returned. |
| `PoolMonitor.PushedIsRun` | ThreadPool/ThreadPool.cpp:39-49 | The steps of the vector overload under the mutex append the whole batch in order. |
| `PoolMonitor.Shared.AddTask` | ThreadPool/ThreadPool.cpp:29-36 | The code under the mutex does what the step of a single call does. |
| `PoolMonitor.Shared.AddTasks` | ThreadPool/ThreadPool.cpp:39-49 | The loop under the mutex does what the steps of a vector call do. |
| `PoolMonitor.Shared.TakeNext` | ThreadPool/ThreadPool.cpp:92-101 | Exit, or take the front and leave the rest, as the step does. |

## Left out

- `ikcp_setmtu` during a run, writes to control-block fields by the user, and the `IKCP_FASTACK_CONSERVE` build: the datagram
  size and the mode are parameters of the constructor.
- Logging, the allocator hooks and allocation failure, `ikcp_release`, `ikcp_qprint`, `ikcp_waitsnd` and `ikcp_getconv`.
- The output callback: a flush returns the list of datagrams it hands over; its return value is ignored, as in the source.
- A NULL receive buffer and a negative length in `ikcp_send`: the model receives into, and sends from, sequences of bytes.
- The growth of `acklist` by doubling: the list is a sequence.
- `state` is a Boolean that says whether the link is dead, and `probe` is two Booleans, one for each flag.
- The four counters are natural numbers; each is the length of a list of live segments.
- `Engine.Kcp` holds its queues as sequences in fields and groups its scalar fields in records, so sharing of nodes is not
  modelled there; the lists themselves are modelled at pointer level in `IntrusiveQueue` and `Queues`, where a node is
  numbered by the flush loop and its fragment count is fixed when it is made.
- `frg` and the advertised window are cut to the width of the header where the header is built; `_itimediff` and sums of signed
  quantities are taken in two's complement with wraparound, also where C leaves overflow undefined.
- Datagrams that no peer has sent, over the two-endpoint runs: the end-to-end theorems are about a network that does not forge.
  The invariants of `Calls` hold for any bytes.
- Liveness of the engine (that a fair network eventually delivers): only `Lockstep.NothingStaysBehind` and the timer theorems.
- In the thread pool: what tasks do, exceptions, `Task::finished` and its memory ordering, the number of hardware threads, and
  destruction during a call of `addTask` (such calls may go on in the model; the object stays alive).
- All other directories: socket code, the DNS and TCP code, `CMByteArray`, `Data Structure` and `Project` hold no protocol
  comparable to these two, and much of their code is missing or driver code.
