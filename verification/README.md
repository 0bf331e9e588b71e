# A verified model of the UDT transport and its epoll layer

This project models the data path of the UDT 4.10 transport in `udt4/src`, the epoll layer above it and
the server's send queues in `server_udt`, and proves what they are for: every byte and every message
arrives once, whole and in order over a network that loses, duplicates and reorders packets; and sockets
are reported ready exactly when their buffers say so.

It has four layers.

**The protocol on unbounded numbers.** `SenderSpec.dfy` and `ReceiverSpec.dfy` describe what `packData`,
`processData`, `sendCtrl`, `processCtrl` and `checkTimers` do to the state of the two ends, on packet
numbers that never wrap and are counted from the initial sequence number. `Protocol.dfy` puts the two ends
and a network together: every packet ever sent stays on the network, and a step may deliver any of them, at
any time, any number of times or never. Its invariant is kept by every step (`Runs.StepKeepsInv`), and
`Runs.dfy` draws the theorems about whole runs from it. `Packets.dfy` cuts messages into packets.
`Effects.dfy` says of every step what is sent and what becomes of the numbers both ends keep, without the functions that
define the step. `Recovery.dfy` and `Liveness.dfy` prove that the protocol gets on: from every moment of every run there
are steps after which everything sent has been read (`Liveness.StreamArrives`, `Liveness.MessagesArrive`), even when the
network has lost everything it held (`Liveness.StreamSurvivesLoss`), and they say exactly when there are none.

**The program.** Classes with the program's fields and arrays, whose methods are proved against the first
layer: the wrapping arithmetic of `CSeqNo` (`SeqNo.dfy`), the two loss lists threaded through arrays
(`SndLossList.dfy`, `RcvLossList.dfy`, over `Ring.dfy`, `Ranges.dfy`, `LinkedRanges.dfy` and
`LossListFacts.dfy`), the send and receive buffers (`SndBuffer.dfy`, `RcvBuffer.dfy`), the history of
acknowledgements (`AckWindow.dfy`), the coding of loss reports (`NakCoding.dfy`) and of message headers
(`HeaderWord.dfy`). `Sender.dfy` and `Receiver.dfy` put these together: each of their methods takes exactly
one step of the specification, although it computes on wrapped 32-bit numbers. `Ends.dfy` shows that the
protocol's invariant gives these methods what they rely on.

**Sockets and connections.** `Epoll.dfy`, `Readiness.dfy` and `Socket.dfy` tie the ready sets to the buffers, for
any number of sockets in the same polls. `Connection.dfy` runs two sockets against each other over a network of
datagrams with wrapped numbers; each of its methods is a step of the protocol, so the theorems of `Runs.dfy` hold of
the program. `Drive.dfy` takes any sequence of events, in any order, and proves that what comes out at one end is what
went in at the other (`Drives.Drive`). `Delivery.dfy` joins a queue of the server to this: what has been queued is what
the peer's `recvmsg` returns (`Deliveries.Link.Delivered`). The ready sets agree with the buffers all the time.

**Around it.** `SendMsg.dfy` drives the sockets from queues of messages, `HeapSpec.dfy` and `SndUList.dfy` are the
send schedule, `Registry.dfy` is the registry of sockets and multiplexers, and `Md5.dfy` is the streaming digest
of RFC 1321.

## What is assumed

- A packet handled by an end is recent: its number is less than `m_iSeqNoTH` (0x3FFFFFFF) behind the newest
  number of that end (`Ends.Recent`). The same is assumed of a lost number between the two halves of `packData`. When
  acknowledgements are sent or answered, the last one answered must not be as far behind (`Receivers.Ack2Lag`). The
  first layer has no such bounds, and as long as fewer than `m_iSeqNoTH` packets have been sent they always hold
  (`Drives.ShortRunsAreTimely`). `SeqNo.ThresholdIsExact` shows that the threshold cannot be any higher.
- Both peers run this program. The methods of the second layer require parts of the protocol's invariant
  (`Senders.Ordered`, `Receivers.Steady`, `RcvBuffers.MessagesInOrder`). `Ends` derives these, and that numbers are
  near enough to be compared, from the invariant and the assumption above; `Connections.Connection` uses that, so its
  methods require nothing else. That acknowledgements and retransmissions stay within the send buffer is
  `Runs.NoBadBranch`.
- Messages do not expire (`ttl` is -1), which is how this repository sends them
  (`server_udt/send_msg_ctrl.cpp:37`).
- The receive buffer is not larger than the flight window (`udt4/src/core.cpp:293-295`) and has at least three
  slots; twice the announced window is less than `m_iSeqNoTH`.
- Users of the registry close only sockets they were given.
- The two ends start connected, with the initial sequence number agreed on. The congestion window, the clock
  and measured round-trip times are parameters that may take any value.
- Regions guarded by a lock are single steps. `packData` is two steps, because the acknowledgement lock is
  taken only after a lost number has left the loss list.

## What the proofs found

- The sender's loss list spans fewer numbers than the window the peer announced, so half of the slots
  `connect` allocates would do, even with light acknowledgements running ahead (`Runs.LossSpanFitsTheList`);
  the source doubles the list for fear of the opposite (`udt4/src/core.cpp:764-765`).
- `CSeqNo::seqcmp` and `seqoff` are right for a distance at every position if and only if the distance is below
  `m_iSeqNoTH` (`SeqNo.ThresholdIsExact`). `seqlen` of the whole sequence space is the one result that does not
  fit an `int` (`SeqNo.StaysInInt32`).
- `scanMsg` leaves early when nothing acknowledged is unread and nothing lies beyond the first unacknowledged
  slot (`udt4/src/buffer.cpp:548-550`). A deliverable message is missed if and only if it is a single packet in
  exactly that slot that needs no order (`ReceiverSpec.HiddenMessage`); the first packet of a connection is one
  (`ReceiverSpec.MessageCanHide`).
- The fallback of `scanMsg` (`udt4/src/buffer.cpp:643-649`) reports a message although `readMsg` then copies nothing. It
  does so if and only if the early exit is not taken and `RcvBuffers.FillsBuffer` holds: all slots but one hold unread
  packets that begin one message, the last of them is not acknowledged, and it does not end the message or
  must be acknowledged first. So a whole in-order message that just fits the buffer is announced before it can be read
  (`RcvBuffers.WholeMessageFillsBuffer`), `getRcvMsgNum` answers 1 and `recvmsg` announces more, while an endless message
  that is acknowledged is never announced (`RcvBuffers.AcknowledgedIsNotAnnounced`).
- `CSndUList::update` does not grow the heap array as `insert` does, and nothing calls `insert`
  (`udt4/src/queue.cpp:255-304`). It stays within the array if and only if the socket is scheduled already or the array
  is not full (`SndULists.SndUList.UpdateStaysInArray`); 4096 calls for different sockets fill it
  (`SndULists.FillByUpdates`), and the next one writes past its end.
- `sendmsg` accepts a message that fits the send buffer (`udt4/src/core.cpp:1225-1238`), whatever the peer can hold. All
  messages of a connection can be delivered if and only if each of them has at most one packet less than the peer's
  receive buffer has slots (`Liveness.MessagesArrive`). With the default sizes, 8192 packets each
  (`udt4/src/core.cpp:106-107`), a message that fills the send buffer is accepted and never arrives
  (`Liveness.LongMessageNeverArrives`).
- Once the network has lost every full acknowledgement, everything can still arrive if and only if the sender is not
  stuck (`Recovery.Stuck`, `Liveness.StreamArrivesAfterLoss`): everything sent has arrived, the receiver takes the sender
  to know it and says no more, and the flow window does not let the sender go on. In the first 2^31 steps of a run
  the numbers of acknowledgements do not come round, and the sender is never stuck (`Liveness.StreamSurvivesLoss`).
- A socket that is write-ready has room for a packet, not for every message: `sendmsg` refuses a message that
  does not fit the room, and the server keeps its interest in writing (`SendMsg.SendMsgCtrl.TrySendMsgOfOneSock`, outcome
  `Blocked`).
- A new connection joins the multiplexer found by the listener's port alone (`udt4/src/api.cpp:1442-1461`); the
  reference counts stay right whichever multiplexer that is.
- `CSndUList::remove_` keeps heap order if and only if the entry that fills the hole is not earlier than the
  hole's parent (`HeapSpec.RemovedOrder`, with an example in `HeapSpec.RemovalCanBreakOrder`). Removing the root, as
  `pop` does, always keeps it. Putting the entry back, as `update` does, never repairs the order
  (`HeapSpec.RescheduledOrder`).
- `removeEPoll` clears readiness in the polls the socket stays in (`udt4/src/core.cpp:2689-2699`). The ready sets agree
  with the buffers afterwards if and only if none of those polls should report the socket (`Readiness.AfterRemove`);
  a ready socket in two polls is silenced in the other one (`Readiness.RemovalSilencesOtherPolls`).
- `CEPoll::create` gives out ids in turn and starts again at 0x7FFFFFFF (`udt4/src/epoll.cpp:83-90`). A new poll takes
  the place of an older one if and only if that one has not been released for a whole turn (`Epolls.EPoll.Create`).
- The test for an empty history in the wrapped layout of `CACKWindow::acknowledge` (`udt4/src/window.cpp:129`) is
  never true (an assertion in `AckWindows.AckWindow.SearchAround`).

## Model

| member | source | states |
|---|---|---|
| SeqNo.CmpIsOrder | udt4/src/common.h:222-223 | on numbers closer than the threshold, comparing residues is comparing the numbers |
| SeqNo.OffIsDistance | udt4/src/common.h:228-237 | on near numbers, the offset of the residues is the signed distance |
| SeqNo.LenIsCount | udt4/src/common.h:225-226 | the length of a wire range is the number of packets in it |
| SeqNo.IncIsSuccessor | udt4/src/common.h:239-240 | incrementing a residue is taking the next number, also from the unwrapped starting value -1 |
| SeqNo.DecIsPredecessor | udt4/src/common.h:242-243 | decrementing a residue is taking the previous number |
| SeqNo.IncByIsSum | udt4/src/common.h:245-246 | adding to a residue is adding to the number |
| SeqNo.WireInjective | udt4/src/common.h:219-254 | numbers less than a sequence space apart have different residues |
| SeqNo.CurrIsOrder | udt4/src/core.cpp:614 | comparisons with a current number are right although it starts one below the initial number without wrapping |
| SeqNo.StaysInInt32 | udt4/src/common.h:222-246 | no result overflows an `int`, except the length of the whole sequence space, exactly |
| SeqNo.ThresholdIsExact | udt4/src/common.h:222-237 | a distance is compared right at every position if and only if it is below `m_iSeqNoTH`; the same of offsets |
| Packets.FragmentsAreFaithful | udt4/src/buffer.cpp:120-164 | the packets of a message carry exactly its bytes, are framed by first and last flags, and none is longer than a payload |
| Packets.StreamCarriesBytes | udt4/src/buffer.cpp:120-164 | all packets sent carry all bytes accepted, no more and no fewer |
| Packets.MsgIsSlice | udt4/src/buffer.cpp:135-154 | every message is one run of the packet stream |
| Packets.StreamFlags | udt4/src/buffer.cpp:144-148 | the flags of a packet say where it lies in its message |
| Packets.RunIsMessage | udt4/src/buffer.cpp:600-640 | packets from a first flag to the next last flag are exactly one message |
| HeaderWord.DecodeEncode | udt4/src/packet.cpp:328-344 | reading a written header word gives its fields back |
| HeaderWord.EncodeDecode | udt4/src/packet.cpp:56-74 | every 32-bit word is the writing of its fields |
| ReceiverSpec.SkipTakenMeaning | udt4/src/buffer.cpp:552-593 | exactly the packets already read at the front are released |
| ReceiverSpec.HiddenMessage | udt4/src/buffer.cpp:548-550 | the early exit misses a deliverable message if and only if it is a single packet, right behind the acknowledged part, that needs no order |
| ReceiverSpec.MessageCanHide | udt4/src/buffer.cpp:548-550 | the first packet of a connection can be such a message |
| Protocol.UserSendsStep | udt4/src/core.cpp:1299-1300 | accepting data keeps the invariant |
| Protocol.PickStep | udt4/src/core.cpp:2297-2298 | taking a lost number keeps the invariant |
| Protocol.PackPickedStep | udt4/src/core.cpp:2300-2331 | sending a lost packet again keeps the invariant, also when it was acknowledged meanwhile |
| Protocol.PackNewStep | udt4/src/core.cpp:2335-2350 | a first transmission keeps the invariant |
| Protocol.ExpireStep | udt4/src/core.cpp:2639-2652 | the expiry step keeps the invariant |
| Protocol.OnAckKeepsInv | udt4/src/core.cpp:2000-2051 | a true acknowledgement keeps the sender's invariant |
| Protocol.LightAckKeepsInv | udt4/src/core.cpp:1985-1996 | a light acknowledgement does too and leaves the window's right edge where it was |
| Protocol.NakKeepsInv | udt4/src/core.cpp:2130-2178 | a true loss report puts exactly its numbers that are not yet acknowledged into the loss list, changes nothing else and breaks nothing |
| Protocol.SenderGetsStep | udt4/src/core.cpp:1979-2185 | any packet from the network keeps the invariant at the sender |
| Protocol.DataStep | udt4/src/core.cpp:2432-2470 | any data packet, however late or repeated, keeps the invariant at the receiver |
| Protocol.Ack2Step | udt4/src/core.cpp:2104-2128 | an acknowledged acknowledgement keeps the invariant |
| Protocol.AckIsFirstMissing | udt4/src/core.cpp:1764-1769 | the number acknowledged is the smallest missing one |
| Protocol.AckTimerStep | udt4/src/core.cpp:1786-1856 | a full acknowledgement keeps the invariant and says the truth |
| Protocol.LightAckStep | udt4/src/core.cpp:1774-1784 | a light acknowledgement says the truth |
| Protocol.ReadFromMeaning | udt4/src/buffer.cpp:391-426 | a read returns exactly the bytes between the old and the new position, as many as wanted unless the acknowledged data ends |
| Protocol.UserReceivesStep | udt4/src/core.cpp:1197-1203 | reading a stream keeps the invariant |
| Protocol.ReadAsAWhole | udt4/src/buffer.cpp:498-537 | of a message either every packet has been read or none |
| Protocol.AckedDeliveryIsNext | udt4/src/buffer.cpp:600-640 | the first deliverable acknowledged message stands at the reading position |
| Protocol.ReceivesMessageStep | udt4/src/buffer.cpp:498-537 | reading a message keeps the invariant |
| Runs.StepKeepsInv | udt4/src/core.cpp:1754-2659 | every step of either end or the network keeps the invariant |
| Runs.RunKeepsInv | udt4/src/core.cpp:1754-2659 | the invariant holds at every moment of every run |
| Runs.StreamDelivery | udt4/src/core.cpp:1124-1209 | in every run, what `recv` has returned is a prefix of what `send` has accepted |
| Runs.MessagesAreWhole | udt4/src/buffer.cpp:498-652 | in every run, every delivery is a whole message that was sent, cut to the user's buffer, and no message comes twice |
| Runs.InOrderMessagesComeInOrder | udt4/src/buffer.cpp:627-633 | an in-order message comes only after every message sent before it |
| Runs.InOrderDelivery | server_udt/send_msg_ctrl.cpp:37 | when all messages are sent in order, the deliveries are the first messages sent, in their order |
| Runs.NoBadBranch | udt4/src/core.cpp:2015-2021 | in every run no "attack or bug" branch is taken, no access leaves the send buffer, and nothing is released before the peer has stored it |
| Runs.LossSpanFitsTheList | udt4/src/core.cpp:763-765 | the numbers in the sender's loss list span less than the announced window |
| Runs.ReceiverKnowsItsGaps | udt4/src/core.cpp:2440-2468 | the receiver's loss list is exactly the set of missing numbers |
| Runs.FlowControl | udt4/src/core.cpp:1829-1831 | the sender's limit is at most two beyond the receive buffer, whose edge never moves back, and first transmissions stay below it |
| Runs.RunKeepsNumbers | udt4/src/buffer.cpp:131-163 | message numbers fit into their 29 bits, are never 0, and count up from 1 and around |
| Runs.HeadersSurvive | udt4/src/packet.cpp:328-344 | the header of every packet ever sent survives being written into a word and read back |
| Effects.DataAccepted | udt4/src/buffer.cpp:120-164 | what the user sends becomes a message of its own behind those before, with the next number and the order asked for; its packets are framed and carry it |
| Effects.FirstTransmission | udt4/src/core.cpp:2335-2350 | the next packet is sent, and nothing else changes, exactly when there is one and both windows allow it |
| Effects.LossTaken | udt4/src/core.cpp:2297-2298 | the smallest lost number leaves the loss list |
| Effects.Retransmission | udt4/src/core.cpp:2300-2331 | the packet taken is sent again, as it was, exactly when it has not been acknowledged meanwhile |
| Effects.Expiry | udt4/src/core.cpp:2639-2652 | with no loss known, exactly the unacknowledged numbers are taken for lost; otherwise nothing changes |
| Effects.AckTaken | udt4/src/core.cpp:2000-2051 | the window announced is taken over unless a later number has been acknowledged; what is acknowledged is released and no longer lost; exactly when due, or when it was the last one answered, it is answered |
| Effects.LightAckTaken | udt4/src/core.cpp:1985-1996 | only the acknowledged number moves, and the window's right edge stays |
| Effects.DataStored | udt4/src/core.cpp:2432-2470 | a packet is stored exactly when it is new and within the buffer; what it leaves out is missing from then on, and it no longer is |
| Effects.GapReported | udt4/src/core.cpp:2445-2451 | a packet that leaves a gap causes one report, of exactly the numbers missing from then on; any other causes none |
| Effects.AckSent | udt4/src/core.cpp:1786-1856 | everything up to the first missing number is acknowledged; exactly when that is news to the sender, and new or to be repeated, an acknowledgement with the next number and the room left goes out and is remembered |
| Effects.AckNumbersCount | udt4/src/common.h:261-262 | the numbers of acknowledgements count up and come round after the largest `int` |
| Effects.RoomAnnounced | udt4/src/core.cpp:1828-1831 | a packet that has not come yet is accepted exactly when it lies within the window announced, when that is more than two; at two, nothing beyond it is |
| Effects.LightAckSent | udt4/src/core.cpp:1771-1784 | a light acknowledgement says the first missing number, unless the sender is known to know it |
| Effects.Ack2Taken | udt4/src/core.cpp:2104-2128 | what was acknowledged under the number is known to the sender from then on, and the acknowledgement and all before it are forgotten |
| Effects.LimitWasEdge | udt4/src/core.cpp:1828-1831 | at every moment of a run, the sender's limit is where the receive buffer ended at some moment, or up to two more; so is what every acknowledgement announces |
| Recovery.SendAgain | udt4/src/core.cpp:2295-2331 | whatever the loss list holds, a packet that has not been acknowledged is sent again after some steps |
| Recovery.ReadMessages | udt4/src/buffer.cpp:498-652 | reading goes on until no acknowledged message is left |
| Recovery.FewPacketsIsFewBytes | udt4/src/buffer.cpp:120-125 | a message has at most so many packets if and only if they have room for its bytes |
| Recovery.Advance | udt4/src/core.cpp:1754-2659 | unless the sender is stuck, steps lead to a moment when the first missing packet has arrived and the sender is not stuck |
| Recovery.AllIsRead | udt4/src/core.cpp:1754-2659 | unless the sender is stuck, steps lead to a moment when everything has been acknowledged and read |
| Liveness.RunKeepsAcksSaid | udt4/src/core.cpp:1813-1853 | in every run, what the receiver takes the sender to know has been said on the network, and no window announced is below two |
| Liveness.StreamArrives | udt4/src/core.cpp:1016-1209 | from every moment of every run of a stream, steps of the ends and the network lead to a moment when every byte sent has been read |
| Liveness.MessagesArrive | udt4/src/core.cpp:1225-1238 | from a moment of a run, steps lead to a moment when every message has been delivered, if and only if no message is longer than the receive buffer can hold |
| Liveness.MessagesArriveWhole | udt4/src/buffer.cpp:498-537 | then they are delivered uncut to a user with a large enough buffer |
| Liveness.LongMessageNeverArrives | udt4/src/core.cpp:1225-1238 | a message of as many packets as the receive buffer has slots is never delivered |
| Liveness.StreamArrivesAfterLoss | udt4/src/core.cpp:1786-1853 | with no full acknowledgement left on the network, what has been sent to a stream can arrive if and only if the sender is not stuck |
| Liveness.MessagesArriveAfterLoss | udt4/src/core.cpp:1786-1853 | the same of messages, if and only if they also fit |
| Liveness.RunKeepsAcksKnown | udt4/src/core.cpp:2104-2128 | in the first 2^31 steps of a run, the receiver takes the sender to know only what it does |
| Liveness.StreamSurvivesLoss | udt4/src/core.cpp:2639-2652 | in the first 2^31 steps of a run the network may lose everything, and what has been sent to a stream can still arrive |
| Liveness.MessagesSurviveLoss | udt4/src/core.cpp:2639-2652 | the same of messages, if and only if they fit |
| Liveness.PathIsRun | udt4/src/core.cpp:1754-2659 | where such steps lead, a run goes |
| NakCoding.FlagIsTopBit | udt4/src/packet.cpp:124-143 | the top bit marks a word and masking it gives the number back |
| NakCoding.DecodeEncode | udt4/src/packet.cpp:124-143 | decoding a loss report gives the reported items |
| NakCoding.ReportedIsElems | udt4/src/list.cpp:682-703 | the report of some nodes speaks of exactly the numbers in them |
| SndLossLists.SndLossList.constructor | udt4/src/list.cpp:43-70 | a new list is empty |
| SndLossLists.SndLossList.GetLossLength | udt4/src/list.cpp:369-374 | the length is the number of lost packets |
| SndLossLists.SndLossList.Insert | udt4/src/list.cpp:85-255 | the range is added to the set, and the result is how many of its numbers are new |
| SndLossLists.SndLossList.Coalesce | udt4/src/list.cpp:219-252 | ranges the new one runs into are merged without changing the set |
| SndLossLists.SndLossList.FindPrior | udt4/src/list.cpp:152-162 | the search from the insert hint ends at the last range that starts before the number |
| SndLossLists.SndLossList.Remove | udt4/src/list.cpp:257-367 | exactly the numbers up to the given one leave the set |
| SndLossLists.SndLossList.GetLostSeq | udt4/src/list.cpp:376-418 | the smallest number leaves the set, or -1 |
| RcvLossLists.RcvLossList.Insert | udt4/src/list.cpp:453-499 | a range beyond the maximum is added to the set |
| RcvLossLists.RcvLossList.Remove | udt4/src/list.cpp:501-629 | a single number leaves the set, wherever it lies in its range; the result tells whether it was there |
| RcvLossLists.RcvLossList.FindBefore | udt4/src/list.cpp:579-582 | the backward search through the slots ends at the range before the number |
| RcvLossLists.RcvLossList.GetFirstLostSeq | udt4/src/list.cpp:674-680 | the smallest number, or -1 |
| RcvLossLists.RcvLossList.GetLossArray | udt4/src/list.cpp:682-703 | the words written code the smallest numbers of the set, all of it unless the limit is reached |
| SndBuffers.ChopAt | udt4/src/buffer.cpp:135-149 | packet `i` carries the bytes from `i` payloads on, with the flags of its place |
| SndBuffers.NewBlocks | udt4/src/buffer.cpp:285-334 | the areas of new blocks do not overlap |
| SndBuffers.SndBuffer.constructor | udt4/src/buffer.cpp:47-92 | a new buffer is an empty ring |
| SndBuffers.SndBuffer.Increase | udt4/src/buffer.cpp:285-342 | growth changes no fragment, no position and no overlap |
| SndBuffers.SndBuffer.AddBuffer | udt4/src/buffer.cpp:120-164 | the fragments of the message are appended to those held, whatever growth that takes |
| SndBuffers.SndBuffer.ReadData | udt4/src/buffer.cpp:217-230 | the next unsent fragment, or nothing when there is none |
| SndBuffers.SndBuffer.ReadDataAt | udt4/src/buffer.cpp:232-266 | the fragment at an offset from the oldest |
| SndBuffers.SndBuffer.AckData | udt4/src/buffer.cpp:268-278 | the oldest fragments are dropped and the ring keeps its blocks |
| RcvBuffers.RcvBuffer.GetRcvDataSize | udt4/src/buffer.cpp:483-489 | the number of acknowledged, unread packets |
| RcvBuffers.RcvBuffer.GetAvailBufSize | udt4/src/buffer.cpp:477-481 | one slot less than what is free of acknowledged packets |
| RcvBuffers.RcvBuffer.AddData | udt4/src/buffer.cpp:374-389 | a packet is stored in its slot unless it has been before; nothing is overwritten |
| RcvBuffers.RcvBuffer.AckData | udt4/src/buffer.cpp:467-475 | the acknowledged part grows |
| RcvBuffers.RcvBuffer.ReadBuffer | udt4/src/buffer.cpp:391-426 | partial reads return the payloads byte for byte, starting at the notch |
| RcvBuffers.RcvBuffer.ScanMsg | udt4/src/buffer.cpp:546-652 | the first deliverable message is found if there is one, after everything unusable at the front has been released; otherwise the answer is yes exactly when a message that cannot be read fills the buffer |
| RcvBuffers.WholeMessageFillsBuffer | udt4/src/buffer.cpp:643-649 | an arrived in-order message that just fits a buffer is announced while it cannot be read |
| RcvBuffers.AcknowledgedIsNotAnnounced | udt4/src/buffer.cpp:643-649 | an acknowledged message without an end that fills a buffer is not announced |
| RcvBuffers.RcvBuffer.ReadMsg | udt4/src/buffer.cpp:498-537 | the first deliverable message is copied, cut to the user's buffer, and only its packets are marked or released |
| RcvBuffers.RcvBuffer.GetRcvMsgNum | udt4/src/buffer.cpp:539-544 | the answer is 1 if and only if the early exit is not taken and a message can be read or one that cannot be read fills the buffer |
| RcvBuffers.SkipIsSkipTaken | udt4/src/buffer.cpp:552-593 | for packets of an honest sender, what is released at the front is exactly what has been read |
| RcvBuffers.TakeKeepsMessages | udt4/src/buffer.cpp:498-537 | reading a message leaves the others whole |
| RcvBuffers.SkipKeepsMessages | udt4/src/buffer.cpp:552-593 | releasing what has been read leaves the messages whole |
| AckWindows.AckWindow.Store | udt4/src/window.cpp:70-82 | an acknowledgement is appended and the oldest forgotten when the window is full |
| AckWindows.AckWindow.Acknowledge | udt4/src/window.cpp:83-143 | the entry with the number is returned, and it and all older ones are forgotten, in both layouts |
| Senders.Sender.constructor | udt4/src/core.cpp:743-767 | the state after the handshake |
| Senders.Sender.Send | udt4/src/core.cpp:1109-1110 | takes the step of the specification for accepting data |
| Senders.Sender.TakeLost | udt4/src/core.cpp:2297-2298 | takes the smallest lost number, on wrapped numbers |
| Senders.Sender.PackLost | udt4/src/core.cpp:2300-2331 | sends that packet again unless it has been acknowledged |
| Senders.Sender.PackNew | udt4/src/core.cpp:2335-2368 | sends the next packet, with its wrapped number, exactly when there is one and both windows allow it |
| Senders.Sender.PackData | udt4/src/core.cpp:2286-2404 | lost packets go before new ones |
| Senders.Sender.OnLightAck | udt4/src/core.cpp:1985-1996 | takes the step of the specification on wrapped numbers |
| Senders.Sender.OnAck | udt4/src/core.cpp:2000-2051 | takes over the window, releases what is acknowledged and answers when it must; breaks exactly when the number was never sent |
| Senders.Sender.OnNak | udt4/src/core.cpp:2130-2185 | inserts from the words of a report exactly what the specification inserts from its items |
| Senders.Sender.OnExpire | udt4/src/core.cpp:2641-2652 | with no loss known, exactly the unacknowledged numbers go into the loss list |
| Receivers.Receiver.constructor | udt4/src/core.cpp:743-767 | the state after the handshake |
| Receivers.Receiver.OnData | udt4/src/core.cpp:2408-2471 | stores a recent packet exactly when it is new and within the buffer; the words sent code exactly the numbers missing from then on |
| Receivers.Receiver.AckNumber | udt4/src/core.cpp:1764-1769 | the wrapped number of the first missing packet |
| Receivers.Receiver.SendLightAck | udt4/src/core.cpp:1771-1784 | what the specification sends, on wrapped numbers |
| Receivers.Receiver.SendAck | udt4/src/core.cpp:1786-1856 | acknowledges up to the first missing number, and exactly when that is due announces it with the room left, but at least two |
| Receivers.Receiver.OnAck2 | udt4/src/core.cpp:2104-2128 | takes the step of the specification |
| Receivers.Receiver.Recv | udt4/src/core.cpp:1197 | returns what the specification appends to the stream |
| Receivers.Receiver.RecvMsg | udt4/src/core.cpp:1354 | returns the bytes of the delivery the specification adds, or nothing when it adds none |
| Receivers.Receiver.HasMessage | udt4/src/core.cpp:1358 | says yes if and only if a message can be read or one that cannot be read fills the buffer, and the early exit is not taken |
| Receivers.StoreOnWire | udt4/src/window.cpp:70-82 | the history on wrapped numbers forgets the same entries |
| Receivers.FindOnWire | udt4/src/window.cpp:83-143 | the history on wrapped numbers finds the same entry |
| Receivers.ReportWords | udt4/src/core.cpp:2445-2451 | the one or two words of an immediate report code the gap |
| Ends.ReceiverReadsMessages | udt4/src/buffer.cpp:546-652 | in every reachable state of message mode, what the message scan relies on holds |
| Ends.ReceiverReadsStream | udt4/src/buffer.cpp:391-426 | in every reachable state of stream mode, the acknowledged data can be read |
| Ends.SenderMayHandle | udt4/src/core.cpp:1979-2185 | every recent acknowledgement, light acknowledgement and loss report on the network meets what the sender's methods require |
| Ends.SenderMayPack | udt4/src/core.cpp:2297-2306 | so does a lost number taken while it was recent |
| Ends.ReceiverMayHandle | udt4/src/core.cpp:2408-2471 | every recent data packet meets what the receiver's methods require; so do acknowledgements, when the last one answered is not half the sequence space behind |
| HeapSpec.RootIsEarliest | udt4/src/queue.cpp:345-352 | heap order makes the root the earliest entry |
| HeapSpec.InsertedContents | udt4/src/queue.cpp:355-386 | insertion adds exactly the new entry |
| HeapSpec.InsertedIsOrdered | udt4/src/queue.cpp:355-386 | insertion keeps heap order |
| HeapSpec.RemovedContents | udt4/src/queue.cpp:403-439 | removal takes away exactly the entry, in order or not |
| HeapSpec.RemovedOrder | udt4/src/queue.cpp:403-439 | removal keeps heap order if and only if the last entry is not earlier than the hole's parent, or the hole is the root or the end |
| HeapSpec.RemovalCanBreakOrder | udt4/src/queue.cpp:403-439 | an example where it does not |
| HeapSpec.PoppedIsOrdered | udt4/src/queue.cpp:306-336 | removing the root keeps heap order |
| HeapSpec.RescheduledContents | udt4/src/queue.cpp:282-304 | rescheduling makes that socket due at once and changes no other entry |
| HeapSpec.RescheduledOrder | udt4/src/queue.cpp:282-304 | making a socket due at once keeps heap order if and only if the removal in it does |
| SndULists.SndUList.Insert_ | udt4/src/queue.cpp:355-401 | the heap array and the back pointers become those of the specification |
| SndULists.SndUList.Remove_ | udt4/src/queue.cpp:403-443 | the same for removal; the node knows that it is out |
| SndULists.SndUList.Insert | udt4/src/queue.cpp:255-281 | doubling the array changes nothing else |
| SndULists.SndUList.Update | udt4/src/queue.cpp:282-304 | a scheduled socket is left alone unless it is to be rescheduled |
| SndULists.SndUList.UpdateStaysInArray | udt4/src/queue.cpp:282-304 | the slot written lies in the array if and only if the socket is scheduled already or the array is not full |
| SndULists.FillByUpdates | udt4/src/queue.cpp:282-304 | calls of `update` alone reach a full array and a socket whose slot lies past its end |
| SndULists.SndUList.Pop | udt4/src/queue.cpp:306-336 | the earliest socket is taken when it is due and put back with its next time |
| SndULists.SndUList.GetNextProcTime | udt4/src/queue.cpp:345-352 | the time of the root, or 0 |
| Md5s.WordBytesAreTheWord | udt4/src/md5.cpp:361-381 | a word is written as the four bytes that stand for it, low-order byte first, and no others do |
| Md5s.LengthFieldIsLength | udt4/src/md5.cpp:370-376 | the last eight bytes stand for the length in bits modulo 2^64 |
| Md5s.PaddingIsUnique | udt4/src/md5.cpp:365-376 | the padding of section 3.1 of RFC 1321 is unique and is the one added |
| Md5s.PaddedIsWholeBlocks | udt4/src/md5.cpp:361-381 | a padded message is a number of whole blocks |
| Md5s.ProcessAppend | udt4/src/md5.cpp:351-353 | processing two runs of blocks one after the other is processing them together |
| Md5s.Md5.constructor | udt4/src/md5.cpp:312-320 | nothing has been appended |
| Md5s.Md5.Append | udt4/src/md5.cpp:322-358 | the pieces given so far are known by the registers, the block buffer and the bit count |
| Md5s.Md5.Finish | udt4/src/md5.cpp:360-381 | the digest is that of the message padded as in sections 3.1 and 3.2 of RFC 1321 |
| Md5s.Sum | udt4/src/md5.cpp:322-381 | the digest does not depend on how the message is cut into pieces |
| Epolls.EPoll.Create | udt4/src/epoll.cpp:67-92 | a new poll watches nothing; it takes the place of an older one if and only if that one is still there after a whole turn of the ids |
| Epolls.InterestHistory | udt4/src/epoll.cpp:94-162 | a poll watches a socket for reading or writing if and only if it was told to and the socket has not been removed since |
| Epolls.ReadyHistory | udt4/src/epoll.cpp:182-422 | a poll reports a socket if and only if it was found ready while watched, and neither found not ready nor removed since |
| Epolls.EPoll.Report | udt4/src/epoll.cpp:320-422 | every given poll that still exists is changed, the others are left out, and a socket becomes ready only for what it is watched for |
| Readiness.AfterAdd | udt4/src/core.cpp:2671-2687 | a newly watched socket is reported ready exactly for what its buffers offer |
| Readiness.AfterRemove | udt4/src/core.cpp:2689-2699 | after a removal the polls agree with the buffers if and only if no poll the socket stays in should report it |
| Readiness.RemovalSilencesOtherPolls | udt4/src/core.cpp:2689-2699 | with two polls, the other one stops reporting a ready socket |
| Readiness.OthersStillAgree | udt4/src/epoll.cpp:320-422 | what is told about one socket leaves the agreement of all others as it is |
| Readiness.InOrderMessageIsReported | udt4/src/core.cpp:1356-1367 | whenever an in-order message can be read, every poll that watches the socket for reading reports it |
| Sockets.Socket.constructor | udt4/src/core.cpp:760-812 | a connected socket in no poll is in agreement with all of them |
| Sockets.Socket.Send | udt4/src/core.cpp:1016-1121 | a message socket refuses; a stream accepts as many bytes as there is room for, no fewer; write-readiness goes with the last room |
| Sockets.Socket.SendMsg | udt4/src/core.cpp:1211-1312 | a stream refuses; a message is accepted exactly when it fits the room, and too large exactly when it would not fit an empty buffer; write-readiness goes with the last room |
| Sockets.Socket.OnAck | udt4/src/core.cpp:2027-2066 | released blocks make the socket write-ready |
| Sockets.Socket.OnData | udt4/src/core.cpp:2408-2471 | an arrival makes nothing readable by itself |
| Sockets.Socket.SendAck | udt4/src/core.cpp:1789-1810 | what becomes acknowledged makes the socket read-ready |
| Sockets.Socket.Recv | udt4/src/core.cpp:1124-1208 | a message socket refuses; a stream stays read-ready exactly while acknowledged data is left |
| Sockets.Socket.RecvMsg | udt4/src/core.cpp:1314-1375 | a stream refuses; otherwise returns the bytes of the delivery and says exactly when more is announced; read-readiness goes only when no acknowledged message is left |
| Sockets.Socket.Watch | udt4/src/api.cpp:1089-1104 | registering a socket reports at once what it offers and changes no other interest |
| Sockets.Socket.Unwatch | udt4/src/api.cpp:1111-1124 | the socket leaves the poll; it stays in agreement with the others if and only if none of them should report it |
| Sockets.Socket.OnLightAck | udt4/src/core.cpp:1985-1996 | takes the sender's step; nothing a poll reports changes |
| Sockets.Socket.OnNak | udt4/src/core.cpp:2130-2185 | takes the sender's step; nothing a poll reports changes |
| Sockets.Socket.OnExpire | udt4/src/core.cpp:2641-2652 | takes the sender's step; nothing a poll reports changes |
| Sockets.Socket.TakeLost | udt4/src/core.cpp:2297-2298 | takes the sender's step; nothing a poll reports changes |
| Sockets.Socket.PackLost | udt4/src/core.cpp:2300-2331 | takes the sender's step; nothing a poll reports changes |
| Sockets.Socket.PackNew | udt4/src/core.cpp:2335-2368 | takes the sender's step; nothing a poll reports changes |
| Sockets.Socket.OnAck2 | udt4/src/core.cpp:2104-2128 | takes the receiver's step; nothing a poll reports changes |
| Sockets.Socket.SendLightAck | udt4/src/core.cpp:1771-1784 | what the specification sends, on wrapped numbers |
| Sockets.Socket.StaysValid | udt4/src/epoll.cpp:320-422 | the step of another socket in the same polls leaves a socket whole and in agreement |
| Sockets.MessageTaken | udt4/src/buffer.cpp:498-537 | reading messages brings no new ones and keeps the rest whole |
| Sockets.NoneLeft | udt4/src/core.cpp:1358-1361 | when the scan finds nothing, no acknowledged message is left |
| Sockets.ArrivalIsNotReadable | udt4/src/core.cpp:2432-2437 | an arrival completes no acknowledged message |
| Sockets.RoomIsExact | udt4/src/core.cpp:1238 | the packets of a message fit into the send buffer if and only if there is room for its bytes |
| Sockets.CountFits | udt4/src/core.cpp:1287 | a message that fits the room in bytes fits it in packets |
| Connections.Connection.constructor | udt4/src/core.cpp:743-812 | two sockets that agree on the initial number begin a run |
| Connections.Connection.Send | udt4/src/core.cpp:1016-1121 | the next step of a run; the bytes accepted grow by those it takes; a message socket refuses |
| Connections.Connection.SendMsg | udt4/src/core.cpp:1211-1312 | the next step of a run, or nothing; a stream refuses |
| Connections.Connection.TakeLost | udt4/src/core.cpp:2297-2298 | the next step of a run |
| Connections.Connection.PackLost | udt4/src/core.cpp:2300-2331 | the next step of a run; the datagram is that of the message the protocol sends |
| Connections.Connection.PackNew | udt4/src/core.cpp:2335-2368 | the next step of a run; exactly when both windows allow it, the datagram of the next packet is sent |
| Connections.Connection.Expire | udt4/src/core.cpp:2641-2652 | the next step of a run; with no loss known, exactly the unacknowledged numbers are taken for lost |
| Connections.Connection.GetAck | udt4/src/core.cpp:2000-2051 | any datagram of the network that stands for a recent acknowledgement is handled as that acknowledgement; its window is taken over and it is answered when it must be |
| Connections.Connection.GetLightAck | udt4/src/core.cpp:1985-1996 | the same of a light acknowledgement |
| Connections.Connection.GetNak | udt4/src/core.cpp:2130-2185 | the same of the words of a loss report |
| Connections.Connection.GetData | udt4/src/core.cpp:2408-2471 | the same of a data packet; it is stored exactly when it is new and within the buffer, and the report sent codes exactly the numbers missing from then on |
| Connections.Connection.GetAck2 | udt4/src/core.cpp:2104-2128 | the same of the answer to an acknowledgement |
| Connections.Connection.AckTimer | udt4/src/core.cpp:1786-1856 | the next step of a run; exactly when it is due, the datagram sent acknowledges up to the first missing number and announces the room left |
| Connections.Connection.SendLightAck | udt4/src/core.cpp:1771-1784 | the next step of a run; the datagram is that of the light acknowledgement |
| Connections.Connection.Recv | udt4/src/core.cpp:1124-1209 | the next step of a run; all that has ever been returned is a prefix of all that has been accepted at the other end |
| Connections.Connection.RecvMsg | udt4/src/core.cpp:1314-1375 | the next two steps of a run; the bytes are those of the delivery |
| Connections.Connection.Watch | udt4/src/api.cpp:1089-1104 | watching the receiving socket is a step of a run, too |
| Connections.Connection.BytesArrive | udt4/src/core.cpp:1124-1209 | at every moment of a stream, the bytes returned by one socket are a prefix of those accepted by the other |
| Connections.Connection.MessagesArrive | server_udt/send_msg_ctrl.cpp:37 | when all messages are sent in order, the messages returned by one socket are the first ones accepted by the other, whole and in order |
| Connections.Connection.BytesCanArrive | udt4/src/core.cpp:1016-1209 | at every moment of a stream, steps lead to a moment when everything accepted has been returned |
| Connections.Connection.MessagesCanArrive | udt4/src/core.cpp:1225-1238 | at every moment, everything accepted can still be delivered if and only if no message is longer than the receive buffer can hold |
| Connections.Connection.NeverBroken | udt4/src/core.cpp:2015-2021 | no branch for an attack or bug is ever taken |
| Drives.Do | udt4/src/core.cpp:1754-2659 | any event of a connection, wherever it happens, is a step of the protocol that it may be, and leaves the connection whole |
| Drives.DoBeside | udt4/src/core.cpp:743-812 | two sockets carry a connection each way; what happens to one of the two does not concern the other |
| Drives.Drive | udt4/src/core.cpp:1754-2659 | after any sequence of events, the bytes returned are a prefix of those accepted, the messages delivered are the first ones sent when all are in order, and the sender has not been broken |
| Drives.DriveEarly | udt4/src/core.cpp:1754-2659 | the same without any assumption about the network, while fewer than half the sequence space of packets have been sent |
| Drives.EventKeepsInv | udt4/src/core.cpp:1754-2659 | no event breaks the invariant, and none sends more than one new packet |
| Drives.ShortRunsAreTimely | udt4/src/common.h:222-223 | while fewer than half the sequence space of packets have been sent, every number is recent |
| SendMsg.SendMsgBuf.PeekFrontMsg | server_udt/send_msg_buf.cpp:27-33 | the oldest message of the queue, if any |
| SendMsg.SendMsgBuf.HasMsg | server_udt/send_msg_buf.cpp:19-25 | tells whether the queue is not empty |
| SendMsg.SendMsgBuf.PopMsg | server_udt/send_msg_buf.cpp:35-45 | the oldest message leaves; no other queue changes; no empty queue stays in the map |
| SendMsg.SendMsgBuf.AddMsg | server_udt/send_msg_buf.cpp:47-58 | the message becomes the youngest of its queue |
| SendMsg.SendMsgBuf.CleanMsg | server_udt/send_msg_buf.cpp:60-65 | one queue is emptied |
| SendMsg.SendMsgBuf.CleanAllMsg | server_udt/send_msg_buf.cpp:67-70 | all queues are emptied |
| SendMsg.SendMsgCtrl.AddMsgToSendBuf | server_udt/send_msg_ctrl.cpp:73-78 | the message is queued and the socket is watched for writing |
| SendMsg.SendMsgCtrl.TrySendMsgOfOneSock | server_udt/send_msg_ctrl.cpp:22-61 | queued messages are accepted by the socket in order without loss until one does not fit; the socket is watched for writing exactly while its queue is not empty; no other socket's queue or interest changes |
| SendMsg.SendMsgCtrl.ServeOne | server_udt/send_msg_ctrl.cpp:22-61 | one of several sockets in the same poll is served and all others stay whole, in agreement and in step |
| SendMsg.SendMsgCtrl.TrySendMsg | server_udt/send_msg_ctrl.cpp:14-20 | every socket given is served, and every other one stays as it was |
| SendMsg.SendMsgCtrl.TryRemoveWriteEvent | server_udt/send_msg_ctrl.cpp:101-111 | with nothing queued the socket is watched for reading only |
| SendMsg.SendMsgCtrl.HandleSendMsgError | server_udt/send_msg_ctrl.cpp:63-71 | the queue is dropped and the socket is no longer watched |
| SendMsg.SentInOrder | server_udt/send_msg_ctrl.cpp:37 | what the socket has accepted is the queue's messages, oldest first, each marked in order |
| Deliveries.SentAllIsRun | server_udt/send_msg_ctrl.cpp:36-57 | taking messages from the queue is a run of the protocol |
| Deliveries.Link.Queue | server_udt/send_msg_ctrl.cpp:73-78 | a message is queued; the connection and what has been taken stay as they are |
| Deliveries.Link.Flush | server_udt/send_msg_ctrl.cpp:22-61 | what the socket takes moves from the queue into the log of the connection, nothing is lost between |
| Deliveries.Link.Happen | udt4/src/core.cpp:1754-2659 | whatever the timers, the network and the peer do, what has been queued and taken stays as it is |
| Deliveries.Link.Delivered | server_udt/send_msg_ctrl.cpp:22-78 | the messages the peer's `recvmsg` has returned are the first non-empty messages ever queued, whole and in order |
| Registries.CountedAfterJoin | udt4/src/api.cpp:1386-1391 | a socket that joins a multiplexer counts there and nowhere else |
| Registries.CountedAfterOwn | udt4/src/api.cpp:1398-1436 | a new multiplexer has exactly one user |
| Registries.CountedAfterRemove | udt4/src/api.cpp:1301-1312 | when a socket goes, a multiplexer goes with it if and only if nobody else uses it, and all other counts stay right |
| Registries.Registry.NewSocket | udt4/src/api.cpp:256-313 | a fresh id is registered and known to the user |
| Registries.Registry.UpdateMux | udt4/src/api.cpp:1371-1440 | the socket joins a multiplexer it may share, or opens its own; every reference count is still the number of users |
| Registries.Registry.Bind | udt4/src/api.cpp:499-531 | only a new socket can be bound |
| Registries.Registry.Listen | udt4/src/api.cpp:574-616 | a bound socket gets an empty queue; listening twice is harmless |
| Registries.Registry.Connect | udt4/src/api.cpp:727-790 | only a new or bound socket can connect; a new one joins its own multiplexer first; no other socket changes |
| Registries.Registry.NewConnection | udt4/src/api.cpp:315-462 | when the listener's queue has room, a new socket is registered, connected, queued there and counted at the multiplexer of the listener's port; a repeated request changes nothing; a broken predecessor leaves the queue |
| Registries.Registry.Accept | udt4/src/api.cpp:618-725 | the smallest id of the queue becomes known to the user |
| Registries.Registry.Close | udt4/src/api.cpp:807-859 | a listener is only marked; any other socket moves to the closed ones |
| Registries.Registry.CheckBrokenSockets | udt4/src/api.cpp:1175-1249 | a socket stays open, as it was, unless it is due or waited at a destroyed listener; exactly the closed sockets that have expired leave the registry |
| Registries.Registry.RemoveSocket | udt4/src/api.cpp:1251-1312 | the socket is gone, what waited in its queue is closed, nothing else changes, and its multiplexer is destroyed exactly when it was its last user |
| Registries.MoveKeepsOk | udt4/src/api.cpp:853-854 | a socket that waits in no queue can be moved to the closed ones |
| Registries.WaitsAtListener | udt4/src/api.cpp:1206-1218 | a socket waits in its own listener's queue or nowhere, so taking it out there is enough |

## Left out

- Expiry of messages and message drop requests (`udt4/src/core.cpp:2311-2324`, `udt4/src/buffer.cpp:242-260` and `491-496`).
- File transfer (`addBufferFromFile`, `sendfile`, `readBufferToFile`, `recvfile`): stream I/O.
- The handshake, rendezvous and the cookie; connection shutdown, keep-alive and the death of a silent connection after repeated expiry (`udt4/src/core.cpp:2614-2637`).
- In the registry: failed allocations and the rollback they need, the records of peers (the socket registered for a peer is a parameter), lingering, rendezvous sockets and the thread-local error. Its socket records are values in the two maps.
- UDP channels, addresses, threads, locks and condition variables; calls that wait are modelled by their non-waiting branch.
- That timers run out and the network delivers something in the end: `Liveness` says that steps to completion exist and which they are, not that they are taken.
- Congestion control, rate control, packet-pair timing and statistics; the congestion window is any value.
- The periodic loss report is disabled in the source (`udt4/src/core.cpp:2587-2596`); the report it would send is modelled by `GetLossArray`.
- The removal of a range and `find` in the receiver's loss list (`udt4/src/list.cpp:631-667`) serve only message drops.
- A connection is followed in one direction; the other one is another connection with the ends exchanged (`Drives.DoBeside`).
- The free list of units (`CUnitQueue`); a unit's flag says whether the receive buffer holds it.
- `CCache`, `CPktTimeWindow` and the compression function of MD5, which is a parameter.
- Native descriptors in a poll, and the waiting loop of `wait`.
- Packets carry their header as decoded fields; the coding of the word is proved in `HeaderWord` and for every packet of a run in `Runs.HeadersSurvive`. The payload a `readData` returns is a copy instead of a pointer into the block.
- Long methods of the source are several methods here, and a new block gets its area when it is made instead of in a second pass over the ring.
- Md5s.Md5.Append: only for pieces below 2^28 bytes, because the source's bit count of a piece is an `int`.
- SndULists.SndUList.Remove_: no heap order is promised; `HeapSpec.RemovedOrder` says exactly when there is one.
- SndULists.SndUList.Update: only where the write stays within the array; `SndULists.SndUList.UpdateStaysInArray` says exactly when it does.
- Receivers.Receiver.RecvMsg: for the packets of a peer that runs this program, as `Ends.ReceiverReadsMessages` provides them.
- Deliveries.Link.Happen: for a socket that is sent on from its queue only.
- Registries.Registry.FindPort: which of several multiplexers at the listener's port is found is left open.
- RcvBuffers.RcvBuffer.ReadMsg: for packets framed as a sender frames them; other contents of the buffer are not described.
