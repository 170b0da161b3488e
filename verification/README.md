# A verified model of the minnow TCP/IP stack

This project models the network stack in Dafny and proves what the stack is for: that a byte stream written at one
end of a connection comes out at the other end unchanged, over a network that loses, repeats and reorders, and that
the layers below (segments in datagrams, datagrams in frames, datagrams from router to router) keep their part of
the bargain. To verify it, run `dafny verify dfyconfig.toml` with Dafny 4.11 in this directory.

## How it is built

Each source component has a module of its own. An object that updates its fields in place is a `class` with those
fields; each of its methods is proved equal to a function on a plain value (`ByteStream` on `Stream`, `Reassembler` on
`Reasm`, `TCPReceiver` on `Receiver`, `TCPSender` on `Sender`, `TCPPeer` on `Peer`, `NetworkInterface` on `Interface`,
`Router` on routes and interfaces). The properties of whole runs are then proved about the values.

| file | what it holds |
|---|---|
| `types.dfy`, `division.dfy` | machine integers and their limits; facts about division |
| `bit_operations.dfy` | `&` and `<<` on unsigned numbers, bit by bit |
| `wrapping_integers.dfy` | 32-bit sequence numbers: wrap, unwrap, exactly when they survive the journey |
| `byte_stream.dfy` | the bounded stream and the `read` helper |
| `reassembler.dfy` | windowed reassembly, against "the longest known prefix" |
| `tcp_messages.dfy`, `tcp_receiver.dfy` | messages; the receiving half |
| `tcp_sender.dfy`, `tcp_sender_runs.dfy` | the sending half, one operation at a time and over whole runs |
| `tcp_peer.dfy` | sender and receiver side by side, replies and lingering |
| `tcp_link.dfy`, `tcp_connection.dfy` | one direction of a connection; two peers, the network and all their runs |
| `tcp_linger.dfy` | when a peer still takes and answers messages, and for how long it lingers |
| `tcp_close.dfy`, `tcp_close_gap.dfy` | clean close, and the run in which it fails |
| `tcp_progress.dfy`, `tcp_flow_control.dfy` | progress of retransmission; nothing is sent that has no room |
| `checksum.dfy`, `parser.dfy` | the Internet checksum; parsing and serialising over a rope of buffers |
| `ipv4_header.dfy`, `tcp_segment.dfy`, `tcp_over_ip.dfy` | the wire formats and the round trip through them |
| `network_interface.dfy`, `arp_timing.dfy` | address resolution: the three maps, conservation, pacing, freshness |
| `arp_answers.dfy` | whom an interface answers, what its messages say, what it hands up |
| `router.dfy` | longest-prefix match, draining the queues, and why loops end |
| `tcp_over_routers.dfy` | a TCP message wrapped, forwarded by any number of routers and unwrapped |

The network between two peers is everything ever sent in each direction. A step of a run is a write, close, push,
tick, read or failure at either end, or the delivery of any message ever sent to that end, again or late; so loss,
duplication and reordering need no further model. Times are the milliseconds passed to `tick`.

## What is proved

* **End-to-end safety** (`EndToEndSafety`), for every run: what the far receiver wrote is a prefix of what was
  written here; it is closed only on the whole stream, after the FIN; `abs_ackno_` is at most the receiver's
  acknowledgment, which is at most `abs_seqno_`. All sequence numbers travel as 32-bit values. It assumes that nothing
  is written behind a FIN already out, where it would never be sent (`WriteKeeps`), and that stream, receive window and
  one segment fit 2^32; `OldDuplicateIsMisread` shows why such a bound is needed: a duplicate that is 2^32 late is
  taken for new data.
* **Clean close.** A peer that stops without lingering and without error has the other's whole stream and had all of
  its own acknowledged; the other end is then closed and fully acknowledged if and only if this end's FIN was sent
  (`CleanClose`). That is so whenever each close at this end is followed, sooner or later, by a push there, whatever
  happens in between (`CleanCloseAfterPush`). Without the push it is not: `ClosedWithoutFin` is a run of six steps
  after which one end is inactive and the other waits for a FIN that was never sent.
* **Listening and lingering** (`MessagesAreTaken`, `LingersTenTimeouts`): after any run, an arriving message is taken
  unless there is an error, or both streams are done and ten timeouts have been ticked since the last message was
  taken or lingering was given up; otherwise it is ignored. The times are added up from the run's own steps. A message
  that occupies sequence numbers or is a keep-alive is answered; a plain acknowledgment is not.
* **Progress** (`RoundMakesProgress`): from any reachable state, a timeout, the retransmission and its answer always
  increase the two acknowledgments together; so after at most twice as many such rounds as the stream has sequence
  numbers, nothing is outstanding (`RoundsEnd`).
* **Sender accounting**: the outstanding segments tile the sequence space without gap up to `abs_seqno_`, every
  segment is what the stream has in its place, the timer runs exactly while something is outstanding, and push is
  greedy and bounded. The range test for acknowledgments counts whole segments, so after a partial acknowledgment it
  accepts numbers that were never sent; `AckKeepsInvariantIff` says exactly which, `OverAckReached` is a run of five
  events from a fresh sender to such a state, and `AckIsSafe` proves that no peer of this kind, however old its
  messages, ever sends such a number.
* **Retransmission timing** (`RetransmissionTiming`), in terms of what an observer counts: after r retransmissions
  against an open window a tick retransmits exactly when 2^r initial timeouts have passed since the start or the last
  retransmission; a zero window does not back off.
* **Reassembly** equals the longest prefix of accepted bytes for every interleaving of arrivals and reads, and does
  not depend on order, overlap or duplication.
* **Flow control** (`NothingIsDiscarded`): with acknowledgments in order, though some may be lost, nothing that is
  sent is ever discarded for lack of room, except what a push sends against a window of zero with nothing in flight,
  which is a single sequence number (`ProbeIsSingle`); the window's right edge never moves left.
* **Wire format**: a message that fits a datagram survives wrapping, serialising, any cutting into non-empty chunks,
  parsing and unwrapping; stored checksums verify. `BufferList::truncate` ignores the bytes already used up in its
  first chunk, so a datagram followed by padding in the same chunk loses the end of its payload; `ParseDatagram`
  states the outcome for every input, and `PaddingInOneChunk` that padding does lead there. Headers are serialised
  without their options, so a datagram comes back from its bytes if and only if `SurvivesWire` (`ParseSerialized`).
  A wrapped message crosses any routers that have a route, parsed and serialised again by each, and arrives unchanged
  if and only if there are fewer of them than its time to live (`RoutedRoundTrip`). Of all connected adapters only the
  other end's delivers it (`UnwrappedIff`, `OnlyTheOtherEndDelivers`). One damaged byte is always noticed, in a segment
  and in a header, except in the header's reserved bit (`DamagedSegmentIsRejected`, `DamagedHeaderIsRejectedIff`).
* **Errors** (`ErrorsSpread`): a peer with a failed stream is inactive, and every segment it cuts and every reply
  resets and makes the other end inactive. A retransmission need not: it repeats the outbound stream's flag as it was
  when the segment was cut (`RetransmissionResetsIff`), so a peer that fails after sending can retransmit without
  saying so (`ErrorLeftUnsaid`).
* **Address resolution**: for each neighbour, datagrams are transmitted once and in order, still waiting, or dropped
  with their whole queue, in a run as a whole if and only if none is submitted that cannot be serialised, or that
  finds a queue blocked by such a one, for an address already known (`ConservedIff`, `LostToAnException`); so always
  if only version 4 is submitted for it (`QueueConservation`). Requests for one address are more than 5000 ms apart;
  every IPv4 frame goes to the address announced last, at most 30000 ms ago. Replies are exactly one for each request
  for the interface's own address, in order (`RepliesAreAnswersDue`).
* **Routing**: every queue is drained; each datagram is forwarded once, by the earliest of the longest matching
  routes, or dropped; a route of length n matches exactly the 2^(32 - n) addresses with its leading n bits; no network of routers, loops included, forwards a datagram more than TTL - 1 times.

## Model

| member | source | states |
|---|---|---|
| WrappingIntegers.UnwrapIsNearest | src/wrapping_integers.cc:12-35 | `unwrap` returns, for every value and every 64-bit checkpoint, the 64-bit number congruent to the value that is nearest to the checkpoint, a tie going to the checkpoint's own 2^32 block, although `low` and `high` overflow |
| WrappingIntegers.UnwrapByBlock | src/wrapping_integers.cc:18-34 | the result stays in the checkpoint's block unless a neighbouring block's candidate is strictly nearer and still within 64 bits |
| WrappingIntegers.RoundTrip | src/wrapping_integers.cc:7-35 | unwrapping a wrapped number gives it back if and only if it is less than 2^31 from the checkpoint, or one of the listed border cases |
| WrappingIntegers.UnwrapInFirstBlock | src/wrapping_integers.cc:12-35 | with the checkpoint below 2^32 the only failure is that a number more than 2^31 behind is read 2^32 too high |
| ByteStreams.FirstInFirstOut | src/byte_stream.cc:9-56 | bytes come out in the order they went in, none lost or invented; a push takes as much as the capacity allows |
| ByteStreams.ByteStream.Push | src/byte_stream.cc:9-16 | the byte-by-byte loop appends the longest prefix of the data that fits and changes nothing else |
| ByteStreams.ByteStream.Pop | src/byte_stream.cc:52-56 | removes bytes from the front and counts them, for every length: up to what is buffered this is the pop of the value; beyond it the buffer is empty and the counters are out of step, and only then |
| ByteStreams.ByteStream.Read | src/byte_stream_helpers.cc:12-27 | returns and removes the first bytes, as many as asked for or buffered |
| Reassemblers.DrainMovesTheRun | src/reassembler.cc:36-40 | the drain loop moves exactly the contiguous run of stored bytes to the output, every one-byte push being accepted, and leaves the next index unstored |
| Reassemblers.InsertExtends | src/reassembler.cc:7-45 | every insert keeps stored indices inside the window, only extends the output, and closes it exactly when it has reached the recorded end |
| Reassemblers.InsertKnows | src/reassembler.cc:7-45 | after an insert exactly the bytes known before and those of the substring inside the window are known, and the output is the longest known prefix |
| Reassemblers.InsertAgrees | src/reassembler.cc:7-45 | inserting a fragment of a stream keeps agreement with that stream |
| Reassemblers.KnownIsAccepted | src/reassembler.cc:17-40 | over any run of inserts and reads a byte is known if and only if some insert brought it while it was in the window: nothing accepted is lost, nothing else is stored |
| Reassemblers.OutputIsLongestAcceptedPrefix | src/reassembler.cc:7-45 | the output of any run is the longest accepted prefix, the rest is pending, and pending plus buffered bytes never exceed the capacity |
| Reassemblers.FragmentsAgree | src/reassembler.cc:7-45 | any run of fragments of one stream, with any window, produces only that stream and knows its end exactly when a last fragment was seen |
| Reassemblers.ReassemblyIsLongestCoveredPrefix | src/reassembler.cc:7-45 | with room for the stream, order, overlap and duplication do not matter: the output is the longest prefix covered by the union of the fragments; all covered and the end seen, it is the stream, closed, nothing pending |
| Reassemblers.Reassembler.Insert | src/reassembler.cc:7-45 | both loops, the overflowing end index and the close together are the value function the lemmas speak of |
| Reassemblers.Reassembler.StoreBytes | src/reassembler.cc:22-32 | the storing loop with its break and continue keeps exactly the bytes between the next needed and the first unacceptable index |
| Reassemblers.Reassembler.PushContiguous | src/reassembler.cc:34-40 | the loop over the map ends with the drained output and the remaining map |
| Reassemblers.Reassembler.CountBytesPending | src/reassembler.cc:49-52 | the number of pending bytes |
| TcpReceivers.WindowNeverShrinks | src/tcp_receiver.cc:10-41 | whatever arrives and however the reader reads, neither the acknowledgment nor the right window edge moves left |
| TcpReceivers.WindowIsExact | src/tcp_receiver.cc:37 | within 16 bits the advertised window is exactly the room: a byte not yet known, so far beyond the next one needed, is kept if and only if it is inside |
| TcpReceivers.OldDuplicateIsMisread | src/tcp_receiver.cc:21-25 | a duplicate of the segment for byte k that arrives when byte 2^32 + k is needed is written as that byte |
| TcpReceivers.TCPReceiver.Receive | src/tcp_receiver.cc:10-26 | initial sequence number, reset flag, unwrapping and the unsigned step to a stream index, as on the value |
| TcpReceivers.TCPReceiver.Send | src/tcp_receiver.cc:28-41 | acknowledgment counting SYN and FIN, window cut to 16 bits, reset flag, as on the value |
| TcpSenders.PushStepKeeps | src/tcp_sender.cc:33-89 | one turn of the push loop sends a non-empty segment that is the next piece of the stream, fits the window and extends the tiling; the invariant holds after it |
| TcpSenders.PushKeeps | src/tcp_sender.cc:28-91 | what push transmits tiles exactly the sequence space between the old and the new `abs_seqno_`, SYN first, FIN once and last, payloads at most 1000 bytes, and is what it adds to the outstanding queue |
| TcpSenders.PushFillsTheWindow | src/tcp_sender.cc:28-91 | after push no more is in flight than before or than max(window, 1); either the window is full or the buffer is empty and a closed stream's FIN is out; unsent work implies a running timer |
| TcpSenders.PushedSegmentsAreFull | src/tcp_sender.cc:63-70 | of the segments one push transmits all but the last carry 1000 bytes |
| TcpSenders.StartIsRecovered | src/tcp_sender.cc:122-124 | the acknowledgment loop unwraps each outstanding segment to its true place |
| TcpSenders.DropAckedTiles | src/tcp_sender.cc:119-130 | an acknowledgment removes exactly the segments wholly below it; the rest still tile up to `abs_seqno_` |
| TcpSenders.ReceiveAckKeeps | src/tcp_sender.cc:109-136 | for every acknowledgment up to `abs_seqno_`, `abs_ackno_` becomes the furthest seen and lies in the front segment, and nothing is outstanding exactly when all is acknowledged |
| TcpSenders.AckKeepsInvariantIff | src/tcp_sender.cc:110-111 | an acknowledgment keeps the invariant if and only if it is not in the gap past `abs_seqno_` that the whole-segment range test lets through after a partial acknowledgment |
| TcpSenders.OverAckAccepted | src/tcp_sender.cc:110-116 | a valid sender that accepts an acknowledgment for a sequence number it never sent |
| TcpSenderRuns.OverAckReached | src/tcp_sender.cc:102-131 | five events lead a fresh sender there: write, push, acknowledgment, push, partial acknowledgment; then 4 is acknowledged although only 3 numbers were used |
| TcpSenders.ReceiveKeeps | src/tcp_sender.cc:102-137 | a whole receiver message: window and error always, acknowledgment only if new and sent, invariant kept, outstanding segments unaltered |
| TcpSenders.ReceiveKeepsUsable | src/tcp_sender.cc:102-137 | whatever number is acknowledged, sent or not, the timer never runs without a segment to retransmit, so `front()` in `tick` is safe |
| TcpSenders.AbsentAcknoIsHarmless | src/tcp_sender.cc:107-111 | an absent acknowledgment number, read as any value, changes nothing but the window if and only if that value unwraps to nothing new or to more than the range test admits; with nothing in flight that is always so |
| TcpSenders.TickKeeps | src/tcp_sender.cc:139-154 | a tick sends nothing, or on expiry the lowest outstanding segment exactly as it was, and keeps the invariant, the doubled timeout included |
| TcpSenders.WriteKeeps | src/byte_stream.cc:9-16 | what was sent stays sent whatever is written; the invariant survives a write, before or after closing, if and only if no byte is added behind a FIN already out |
| TcpSenders.CloseOrFailKeeps | src/byte_stream.cc:19-22 | closing or failing the stream keeps all that the sender has sent |
| TcpSenders.TCPSender.SequenceNumbersInFlight | src/tcp_sender.cc:11-20 | the loop over a copy of the queue totals the outstanding sequence numbers |
| TcpSenders.TCPSender.Push | src/tcp_sender.cc:28-91 | the loop with its four exits transmits, and leaves behind, what the value function says |
| TcpSenders.TCPSender.PushOnce | src/tcp_sender.cc:33-89 | one turn of that loop |
| TcpSenders.TCPSender.TakeSegment | src/tcp_sender.cc:51-77 | the segment cut from the stream within the remaining window, with its flags |
| TcpSenders.TCPSender.MakeEmptyMessage | src/tcp_sender.cc:93-100 | an empty message at `abs_seqno_`, with the error flag |
| TcpSenders.TCPSender.Receive | src/tcp_sender.cc:102-137 | a receiver message on the object, for every acknowledgment number, sent or not |
| TcpSenders.TCPSender.DropAckedSegments | src/tcp_sender.cc:119-130 | the acknowledgment loop with its break |
| TcpSenders.TCPSender.Tick | src/tcp_sender.cc:139-154 | timer, retransmission and back-off on the object |
| TcpSenderRuns.NextKeepsInvariant | src/tcp_sender.cc:28-154 | every event keeps: the tiling, the timer exactly while something is outstanding, every transmitted segment a piece of the stream |
| TcpSenderRuns.RetransmissionTiming | src/tcp_sender.cc:113-154 | in every run, with r retransmissions made against an open window since new data was last acknowledged: the sender's count is r and its timeout 2^r initial ones; a tick retransmits exactly when something is outstanding and that time has been ticked since the start, new data or the last retransmission; it repeats the lowest outstanding segment as first sent, and backs off if and only if the window is open; so the k-th comes at least (2^k - 1) initial timeouts after the start |
| TcpPeers.AbsorbKeepsStreams | util/tcp_peer.hh:67-71 | an incoming message changes no byte of the outgoing stream and leaves a consistent receiver |
| TcpPeers.PushCarriesError | src/tcp_sender.cc:55-56 | every segment a push sends carries the outbound stream's error flag |
| TcpPeers.RetransmissionResetsIff | src/tcp_sender.cc:139-154 | a message that a tick transmits resets if and only if its segment was cut with the flag set or the inbound stream has an error now |
| TcpPeers.ErrorLeftUnsaid | src/tcp_sender.cc:139-154 | a fresh peer pushes, its outbound stream fails, its timer runs out: it is inactive with an error, and transmits a message that does not reset |
| TcpPeers.ErrorIsAbsorbedIff | util/tcp_peer.hh:67-71 | absorbing a message leaves a peer with an error if and only if it had one or the message resets |
| TcpPeers.ErrorsSpread | util/tcp_peer.hh:30-83 | a peer with an error is inactive, and all that it pushes or replies resets, as do its retransmissions but for those cut before the failure; an active peer that receives any of it has an error afterwards if and only if it resets, and then is inactive and resets in whatever it answers |
| TcpPeers.TCPPeer.Active | util/tcp_peer.hh:39-48 | errors, unsent or unacknowledged data, an open inbound stream and lingering decide activity |
| TcpPeers.TCPPeer.Push | util/tcp_peer.hh:30 | every segment is stamped with the receiver's current state, and the reply flag is cleared by sending |
| TcpPeers.TCPPeer.Send | util/tcp_peer.hh:96-100 | the transmit wrapper: the receiver's message is taken when the segment is sent |
| TcpPeers.TCPPeer.Tick | util/tcp_peer.hh:31-35 | time passes for lingering and for the sender |
| TcpPeers.TCPPeer.Receive | util/tcp_peer.hh:50-83 | an inactive peer ignores the message; an active one absorbs both halves, pushes, replies if it must and decides about lingering |
| TcpLinger.ActiveIsListening | util/tcp_peer.hh:39-48 | a peer is active if and only if it has no error and its streams are not both done, or it lingers and less than ten timeouts have passed since it last took a message |
| TcpLinger.ReceiveTakes | util/tcp_peer.hh:50-83 | what taking a message means: both halves are absorbed, then all that can be sent is; something is sent if and only if there was something to push, or the message occupies sequence numbers, or it is a keep-alive just before the next number expected |
| TcpLinger.MessagesAreTaken | util/tcp_peer.hh:39-83 | after any run an arriving message is taken so, or ignored without a trace, according to errors, streams, and the times and lingering noted from the run itself |
| TcpLinger.LingersTenTimeouts | util/tcp_peer.hh:43-47 | with both streams done and no error, messages are taken exactly while lingering was never given up and less than 10 * rt_timeout ms were ticked since the last was taken |
| TcpLinks.AckAtMostSent | src/tcp_receiver.cc:28-37 | the receiver acknowledges at most what was sent, holds a prefix, and is closed if and only if the FIN was sent and all is acknowledged |
| TcpLinks.ReceiveHolds | src/tcp_receiver.cc:10-26 | any genuine segment, however old a duplicate, leaves the receiver with only genuine bytes in their places |
| TcpLinks.TransmissionsAreGenuine | src/tcp_sender.cc:28-154 | everything a sender ever transmits, new, repeated or empty, is a true piece of its stream under its 32-bit number |
| TcpLinks.AckIsSafe | src/tcp_sender.cc:106-131 | a genuine acknowledgment, however old, is never past what was sent, so it keeps the sender's invariant and never takes `abs_ackno_` past the receiver |
| TcpLinks.SendIsGenuine | src/tcp_receiver.cc:28-41 | what the receiver advertises is its true state, recoverable from 32 bits |
| TcpConnections.StepIsGood | util/tcp_peer.hh:30-83 | every step of a peer moves its sender and receiver only forward and transmits only genuine, freshly stamped messages |
| TcpConnections.NextKeepsInvariant | util/tcp_peer.hh:30-83 | every step of the two-peer system keeps the invariant of both directions |
| TcpConnections.RunKeepsInvariant | util/tcp_peer.hh:30-83 | so does every run |
| TcpConnections.EndToEndSafety | src/tcp_sender.cc:28-154 | prefix, closed only when complete and after the FIN, acknowledgments in order, and FIN sent with nothing outstanding implies the far end holds everything: in every run over a lossy, repeating, reordering network |
| TcpClose.StepAndClosing | util/tcp_peer.hh:79-82 | how one step can touch what closing depends on: the end of the inbound stream is learnt only from a FIN segment, lingering is given up only with the inbound stream closed and the outbound one not finished |
| TcpClose.RunKeepsCloseInvariant | util/tcp_peer.hh:50-83 | in every run each copy of the FIN of a peer that gave up lingering acknowledges all of the other's stream |
| TcpClose.CleanClose | util/tcp_peer.hh:39-83 | a peer inactive without error and without lingering has everything of the other's; the other is closed and fully acknowledged if and only if this peer's FIN was sent |
| TcpClose.StepKeepsFlushed | src/tcp_sender.cc:73-77 | only a close not followed by a push leaves a closed stream with no FIN sent and nothing in flight |
| TcpClose.CleanCloseAfterPush | util/tcp_peer.hh:39-83 | when each close at one end is followed later by a push there, with any steps of either end in between, and that end stops without lingering and without error, the other is closed with the complete stream and fully acknowledged |
| TcpCloseGap.ClosedWithoutFin | util/tcp_peer.hh:39-83 | a reachable run of six steps in which a close without a push leaves one end inactive, its FIN never sent, and the other end waiting |
| TcpProgress.FrontAdvances | src/reassembler.cc:21-44 | the front outstanding segment, when it reaches the receiver, advances the acknowledgment if there is room |
| TcpProgress.Answered | util/tcp_peer.hh:59-77 | a segment that occupies sequence numbers is always answered, with the state after it |
| TcpProgress.RoundMakesProgress | src/tcp_sender.cc:102-154 | timeout, delivery of the retransmission and delivery of its answer strictly increase `abs_ackno_` plus the receiver's acknowledgment |
| TcpProgress.RoundAdvances | src/tcp_sender.cc:102-154 | the same for a whole round with a read at the far end, in the two-peer system: its invariant holds again and the written stream is unchanged |
| TcpProgress.RoundsEnd | src/tcp_sender.cc:102-154 | after at most 2 * (stream length + 2) rounds, less what is acknowledged already, nothing is outstanding |
| TcpFlowControl.ProbeIsSingle | src/tcp_sender.cc:36-45 | against a window of zero with nothing in flight a push sends at most one segment, of one sequence number |
| TcpFlowControl.PushHasRoom | src/tcp_sender.cc:36-45 | all that push sends within the receiver's edge has room, however short, unless it is such a probe |
| TcpFlowControl.OwnStepKeepsFlow | src/tcp_sender.cc:106-131 | acknowledgments taken in order keep the sender's view of the window within the receiver's |
| TcpFlowControl.OtherStepKeepsFlow | src/tcp_receiver.cc:28-37 | no step of the receiver's end takes room away from what is under way |
| TcpFlowControl.RoomMeansKept | src/reassembler.cc:19-32 | a payload of any length that has room is known in full once it has arrived |
| TcpFlowControl.NothingIsDiscarded | src/tcp_sender.cc:36-45 | in every run with acknowledgments delivered in order, losses allowed, each payload byte that arrives is kept, unless its segment was sent as a zero-window probe of this run |
| Checksums.WordSumConcat | util/checksum.hh:17-27 | cutting the data anywhere, even inside a word, does not change the sum |
| Checksums.FoldIsResidue | util/checksum.hh:31-35 | folding is reduction modulo 65535, only zero folding to zero |
| Checksums.ChecksumVerifies | util/checksum.hh:29-38 | data summed with its own checksum verifies, and no other value does except for the two forms of zero |
| Checksums.DamageIsSeen | util/checksum.hh:17-38 | changing any one byte changes the checksum |
| Checksums.StoredChecksumVerifies | util/checksum.hh:17-38 | storing the checksum in a zeroed even-offset field makes the data verify |
| Checksums.InternetChecksum.Add | util/checksum.hh:17-27 | the loop adds the 32-bit wrapped word sum from its current parity |
| Checksums.InternetChecksum.AddAll | util/checksum.hh:40-45 | adding pieces adds their concatenation |
| Checksums.InternetChecksum.Value | util/checksum.hh:29-38 | the folding loop ends, with the complement of the folded sum |
| Parsers.BigEndianOfToBytes | util/parser.hh:72-112 | an integer that fits its width survives serialising and parsing |
| Parsers.ToBytesAt | util/parser.hh:108-111 | each serialised byte is the value shifted down by its place and cut to 8 bits |
| Parsers.BufferList.RemovePrefix | util/parser.cc:17-29 | removes that many bytes from the flat content, across chunk boundaries, or all of it |
| Parsers.BufferList.Truncate | util/parser.cc:31-69 | keeps the first bytes exactly when nothing of the first chunk is used up, or nothing or everything is cut; otherwise too short by what is used up, with a wrong size |
| Parsers.BufferList.DumpAll | util/parser.cc:71-86 | hands out the remaining content, or throws when the size is out of step with a chunk shorter than what is used up |
| Parsers.BufferList.Buffers | util/parser.cc:88-101 | the remaining content as views |
| Parsers.Parser.Integer | util/parser.hh:72-92 | reads the big-endian number at the flat position, or sets the error and leaves all as it was when too few bytes remain |
| Parsers.Parser.String | util/parser.cc:103-116 | the next bytes of the flat string, across chunks, or the error |
| Parsers.Parser.RemovePrefix | util/parser.hh:63 | moves the flat position, stopping at the end |
| Parsers.Parser.ConcatenateAllRemaining | util/parser.cc:118-132 | everything from the flat position on |
| Parsers.Serializer.Integer | util/parser.hh:103-112 | appends the big-endian bytes |
| Parsers.Serializer.BufferAll | util/parser.cc:142-163 | appends the buffers, empty ones leaving no chunk behind |
| Parsers.Serializer.Finish | util/parser.cc:134-169 | the chunks handed out hold all that was serialised and none is empty |
| Ipv4.HeaderRoundTrip | util/ipv4_header.cc:10-78 | every header that fits its fields is read back from its bytes, whatever follows them |
| Ipv4.FieldSlices | util/ipv4_header.cc:55-78 | which field is in which bytes of the header |
| Ipv4.FragmentFields | util/ipv4_header.cc:20-24 | the flag bits 0x4000 and 0x2000 and the 13-bit offset share one word |
| Ipv4.PseudoChecksumIsSum | util/ipv4_header.cc:96-103 | the pseudo checksum is the word sum of source, destination, zero, protocol and payload length |
| Ipv4.DamagedHeaderIsRejectedIff | util/ipv4_header.cc:10-52 | an accepted header with one byte changed is rejected, unless only the reserved bit before DF changed |
| Ipv4.HeaderChecksumVerifies | util/ipv4_header.cc:105-115 | a header with its computed checksum sums to zero |
| Ipv4.SerializeHeader | util/ipv4_header.cc:55-78 | the 20 bytes, or the exception for a version other than 4 |
| Ipv4.ComputeChecksum | util/ipv4_header.cc:105-115 | the header with its checksum, or that exception |
| Ipv4.ParseHeader | util/ipv4_header.cc:10-52 | from any chunks: accepted if and only if version, length and checksum are right, options skipped |
| Ipv4.ParseDatagram | util/ipv4_datagram.hh:16-21 | the outcome for every chunking: right unless a trailer follows and no chunk ends between header and payload; then short by the shared bytes, or the exception of `substr` |
| Ipv4.SerializeDatagram | util/ipv4_datagram.hh:23-27 | header bytes, then payload |
| Ipv4.ParseSerialized | util/ipv4_datagram.hh:16-27 | serialised, cut into any non-empty chunks and parsed, a datagram comes back if and only if its header fits and is in order, and it has no payload, or no options and a length that covers the payload |
| TcpSegments.SegmentRoundTrip | util/tcp_segment.cc:12-82 | a segment whose two halves agree on the reset flag is recovered from its bytes |
| TcpSegments.SegmentSlices | util/tcp_segment.cc:67-82 | which field is in which bytes of the segment |
| TcpSegments.FlagBits | util/tcp_segment.cc:74-77 | ACK, RST, SYN and FIN are the bits 0x10, 0x04, 0x02 and 0x01 |
| TcpSegments.DamagedSegmentIsRejected | util/tcp_segment.cc:14-20 | an accepted segment with one byte changed is rejected |
| TcpSegments.SegmentChecksumVerifies | util/tcp_segment.cc:84-93 | its computed checksum verifies with the pseudo-header, for any segment that fits a datagram |
| TcpSegments.SerializeSegment | util/tcp_segment.cc:67-82 | appends the segment's bytes |
| TcpSegments.ComputeSegmentChecksum | util/tcp_segment.cc:84-93 | the segment with the checksum over its bytes and the pseudo-header |
| TcpSegments.ParseSegment | util/tcp_segment.cc:12-59 | from any chunks: accepted if and only if the checksum verifies and the header is complete, options skipped |
| TcpOverIp.UnwrapOfWrap | util/tcp_over_ip.cc:25-96 | the connected peer with mirrored addresses unwraps exactly the message that was wrapped |
| TcpOverIp.ListenerAcceptsSyn | util/tcp_over_ip.cc:54-64 | a listening adapter unwraps a wrapped SYN for its port and is then connected to its sender |
| TcpOverIp.WrappedDatagramParses | util/tcp_over_ip.cc:76-96 | the serialised datagram carries an acceptable header and announces exactly the segment |
| TcpOverIp.PaddingInOneChunk | util/ipv4_datagram.hh:16-21 | any padding in one chunk with the datagram meets the condition under which `truncate` cuts 20 bytes too many |
| TcpOverIp.WrapTcpInIp | util/tcp_over_ip.cc:76-96 | header and segment with lengths, ports and both checksums |
| TcpOverIp.UnwrappedIff | util/tcp_over_ip.cc:25-72 | read off the bytes: a connected adapter delivers exactly the whole TCP segments from its peer's address and port to its own and never changes; a listening one delivers exactly a SYN without RST for its port, is then connected to its sender, and leaves listening for nothing else |
| TcpOverIp.IsWholeSegment | util/tcp_segment.cc:14-56 | a payload parses if and only if it holds a complete header and its sum with the pseudo-header's bytes is 0 modulo 65535 without being 0 |
| TcpOverIp.OnlyTheOtherEndDelivers | util/tcp_over_ip.cc:25-96 | what is wrapped for one connection is for a connected adapter if and only if that is the other end of this very connection |
| TcpOverIp.UnwrapTcpInIp | util/tcp_over_ip.cc:25-72 | the method delivers exactly that, from any chunks |
| TcpOverIp.WireRoundTrip | util/tcp_over_ip.cc:25-96 | wrapped, serialised, cut into any non-empty chunks, parsed and unwrapped, the message arrives as it was sent |
| NetworkInterfaces.StepKeepsValid | src/network_interface.cc:31-156 | after every operation, exceptions included: queues wait only for addresses asked for and, unless blocked by a datagram that cannot be serialised, not known; a request without a queue has an answer at least as new, which outlives it because 30000 > 5000 |
| NetworkInterfaces.RunKeepsValid | src/network_interface.cc:31-156 | that consistency holds in every run |
| NetworkInterfaces.StepConserves | src/network_interface.cc:31-156 | what a step sends to a neighbour plus what it leaves waiting is what waited, unless expired, plus what was submitted, in order, if and only if it does not submit, for a known address, a datagram that cannot be serialised or one behind a blocked queue |
| NetworkInterfaces.ConservedIff | src/network_interface.cc:31-156 | conservation and order hold throughout a run, for one next hop, if and only if no step submits such a datagram for it |
| NetworkInterfaces.LostToAnException | src/network_interface.cc:38-43 | a neighbour announces itself and is sent a datagram of another version: it is neither transmitted nor waiting |
| NetworkInterfaces.QueueConservation | src/network_interface.cc:31-156 | in every run in which only version 4 is submitted for a next hop, datagrams transmitted to it followed by those waiting are those submitted, once each and in order, minus whole queues dropped on expiry, whatever happens for other hops |
| NetworkInterfaces.NetworkInterface.SendDatagram | src/network_interface.cc:31-70 | frame to the cached address, or the exception of serialising it; or a broadcast request and a queue; or the queue alone |
| NetworkInterfaces.NetworkInterface.RecvFrame | src/network_interface.cc:73-134 | filter and receipt of datagrams, the rest as in `RecvArp`; or the exception |
| NetworkInterfaces.NetworkInterface.RecvArp | src/network_interface.cc:87-131 | learning, then the reply, then the flushed queue |
| NetworkInterfaces.NetworkInterface.Flush | src/network_interface.cc:115-131 | the loop sends the queue in order and erases it, or throws at the first datagram that cannot be serialised, which stays with those behind it |
| NetworkInterfaces.NetworkInterface.Tick | src/network_interface.cc:137-156 | the two erasing loops remove exactly the expired entries, and queues with their requests |
| ArpTiming.RunKeepsPacing | src/network_interface.cc:47-65 | in every run past requests are no newer than the pending one and, with none pending, more than five seconds old |
| ArpTiming.RequestsArePaced | src/network_interface.cc:47-65 | any two requests broadcast for the same address are more than 5000 ms apart |
| ArpTiming.CacheIsLastAnnounced | src/network_interface.cc:83-89 | in every run an address is cached if and only if it was announced at most 30000 ms ago, and then it is the one last announced, with the time of that announcement |
| ArpTiming.DatagramsGoToFreshAddresses | src/network_interface.cc:38-43 | every IPv4 frame goes to the address last announced by the neighbour it is for, at most 30000 ms before |
| ArpTiming.AddressIsResolved | src/network_interface.cc:31-134 | the whole exchange between two interfaces: request, reply, both ends learn, and the waiting datagram is transmitted and arrives if and only if it survives the wire; one of another version throws and stays |
| ArpAnswers.RepliesAreAnswersDue | src/network_interface.cc:91-113 | in every run the ARP replies are, in order and at once, one for each request that reaches the interface and asks for its own IP address, unicast to the asker with the interface's addresses as sender and the asker's as target; nothing else is answered |
| ArpAnswers.RequestsAskForTheHop | src/network_interface.cc:50-59 | every request transmitted is a broadcast for the next hop with the interface's own addresses as sender |
| ArpAnswers.ReceivedIsAddressed | src/network_interface.cc:75-82 | in every run what is handed up is exactly the datagrams in frames to the interface's address or to all, in order |
| BitOperations.AndIsBitwise | src/router.cc:56-57 | the model's `&` has exactly the bits both operands have |
| BitOperations.AndLeadingOnes | src/router.cc:56-57 | a mask of ones above k zeros rounds down to a multiple of 2^k |
| Routers.RouteCoversBlock | src/router.cc:56-57 | a route of length n matches an address if and only if both give the same quotient by 2^(32 - n); so it covers exactly 2^(32 - n) consecutive addresses from a multiple of 2^(32 - n) on |
| Routers.BestIsBest | src/router.cc:51-61 | the loop's choice matches, is at least as long as every matching route and the earliest among equals; -1 exactly when none matches |
| Routers.BestIsUnique | src/router.cc:51-61 | there is only one such choice |
| Routers.ForwardFollowsBestRoute | src/router.cc:62-76 | dropped exactly when no route is best or the TTL is used up; otherwise out of the best route's interface to its next hop, or to the destination itself |
| Routers.ForwardedIsValid | src/router.cc:66-70 | a forwarded datagram differs only in a time to live one smaller and a checksum that verifies, so the next router accepts its header; it survives the wire if and only if it did as it came, so options or a wrong length cost payload |
| Routers.EachForwardedOnce | src/router.cc:43-77 | each datagram has exactly one place in what is forwarded, in order, or none if it is dropped |
| Routers.DeliveredToNextHop | src/router.cc:72-76 | a forwarded datagram goes to its own interface and there to its next hop alone, behind what was sent or waits there; every other interface and neighbour is left as it was |
| Routers.ForwardedLessThanTtl | src/router.cc:62-70 | along any path, loops included, a datagram gets through if and only if every table has a route and there are fewer tables than its TTL |
| Routers.ForwardingEnds | src/router.cc:41-79 | in any network of routers, in any order of runs, forwardings number at most the sum of TTL - 1 over the datagrams at the start |
| Routers.Router.AddRoute | src/router.cc:32-39 | appends the route |
| Routers.Router.FindRoute | src/router.cc:51-61 | the loop finds the best route |
| Routers.Router.RouteOne | src/router.cc:49-76 | one datagram: dropped, handed to its interface, or the exception |
| Routers.Router.Drain | src/router.cc:44-77 | the inner loop empties one interface's queue |
| Routers.Router.RouteDatagrams | src/router.cc:41-79 | all queues end up empty, what is forwarded is what the table says of the waiting datagrams in order, and the interfaces are what sending those makes of them; after an exception, the same up to the offending datagram |
| TcpOverRouters.AfterForward | src/router.cc:49-76 | a wrapped message is forwarded if and only if there is a route for its destination and time left, and is then the same message one hop on |
| TcpOverRouters.RoutedRoundTrip | util/tcp_over_ip.cc:25-96 | wrapped, parsed, routed and serialised again by every router on the way, cut anyhow on each hop, and unwrapped, the message arrives as sent if and only if every table has a route and there are fewer than 128 tables |

## Where code and documentation differ

* `TCPSender::receive` reads `ackno` without checking that it is there (src/tcp_sender.cc:107). The model reads an
  absent one as "window only". `AbsentAcknoIsHarmless` says exactly for which values in its place this is what
  happens: always with nothing in flight, but in a simultaneous open, with the SYN out, not for the value that
  unwraps to 1.
* `abs_ackno_` has no initial value (src/tcp_sender.hh:52); the model starts it at 0.
* The comment at src/tcp_sender.cc:109 says the acknowledgment is in the range sent; the test admits more
  (`AckKeepsInvariantIff`).
* The reserved bit of the IPv4 header is neither kept nor summed (util/ipv4_header.cc:20-24 and
  68-69), so a header in which it was flipped is still accepted (`DamagedHeaderIsRejectedIff`).
* The expiry of requests is commented as 30 seconds (src/network_interface.cc:148); the code uses 5000 ms, as here.

## Left out

- Event loop, sockets, file descriptors, TUN devices, threads and the socket front end: only the order of calls into a peer matters, and runs allow every order.
- `Address`: an address is a 32-bit number, an endpoint an address and a port.
- Applications, printing, debugging and the random-loss adapter: delivery in any order, or never, covers random loss.
- `Ref` and moves: buffers are values, so borrowing errors are not modelled; the chunks of a rope are.
- `transmit` callbacks: each method returns what it transmits, in order, instead of calling out.
- Exceptions are outcome values or flags: a wrong IP version when serialising, sending or flushing a queue, `substr` past the end, a route to a missing interface.
- Encoding of ARP messages and Ethernet frames: a transmitted frame's body is the message or datagram that was serialised, a received one's what its parser made of it, anything else being `Other`; `Heard` relates the two; `Sent` also notes the neighbour a frame is for.
- IP options' contents, fragmentation, TCP options and the urgent pointer: options are skipped, as in the source.
- Overflow of 64-bit counters and timers: byte counters are required to stay below 2^64, times and timeouts are unbounded.
- Headers, segments and datagrams are values rather than objects with parse and serialise methods; the parser, serialiser and checksum they use are objects.
- Iteration order over the hash maps in `NetworkInterface::tick`: any order is allowed and the result does not depend on it.
- A prefix length above 32: the documentation excludes it and the shift would be undefined.
- TcpSenders.TCPSender.Receive: an absent acknowledgment number is read as "window only", because what the source reads in its place is undefined; `AbsentAcknoIsHarmless` gives the exact condition under which that makes no difference.
- Routers.Router.AddInterface: an interface must not be added to the same router twice, which the source would allow.
- TcpConnections.EndToEndSafety: the stream, one receive window and one segment must fit 2^32, because duplicates may be arbitrarily old (`OldDuplicateIsMisread`); a bound on the age of duplicates is not modelled.
- TcpProgress.RoundMakesProgress: assumes both ends still up and, when a byte is awaited, room for it, since a reader that never reads stops any sender.
- TcpFlowControl.NothingIsDiscarded: needs acknowledgments in order, because any acknowledgment, even a stale one, overwrites the window (src/tcp_sender.cc:106).
