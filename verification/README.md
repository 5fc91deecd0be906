# Models of the KCP engine, the HEVC header writer and the byte ring

This project models three parts of the program and proves what they are for.

**KCP** (`Kcp*.dfy`, `Circular.dfy`). `KcpSpec` gives every operation of the reliable
transport as a function on values, over sequence numbers that are either 32-bit words or
unbounded (`Circular.Arith`). `Kcp.ControlBlock` is the control block as the program runs
it: fields and lists updated in place by loops, 32-bit words, bytes in and out. Each of its
methods is proved to compute what the functions say. `KcpInvariants`, `KcpTimers` and
`KcpCongestion` prove what one call keeps, `KcpCalls` what holds after any sequence of
calls. `KcpSystem` puts two endpoints on a network that loses, repeats and reorders
datagrams, and `KcpEndToEnd` proves delivery there. `KcpUser`, `KcpArrival` and `KcpEmission`
say in its reachable states exactly when a send or a receive succeeds, what a datagram does on
arrival and what a flush puts on the wire. `KcpRecovery` proves that everything accepted can
still arrive from every such state, and `KcpClosedWindow` exactly when. `KcpWrap` and
`KcpWrapSystem` carry delivery over to 32-bit numbers; `KcpCodec`, `KcpWire` and `KcpBytes`
to bytes.

The two-endpoint system exchanges lists of segments. `KcpBytes` runs it on byte strings, for
datagrams of at most 11 segments. The code counts 24 bytes for a header (`IKCP_OVERHEAD`)
and writes 26; the model keeps both numbers. So the reader believes that 2 bytes more are
left after every segment, and looks behind the end of a datagram with 12 segments or more
(`KcpCodec.DatagramRoundTrip`). The methods that read a datagram require the receive
buffer to extend a twelfth beyond it (`KcpCodec.Room`), which is what the reader can touch.

**HEVC** (`Hevc*.dfy`). `HevcBitstream.Bitstream` is the word-packing bit writer; a ghost
list of bits and one of syntax elements say what it has written. `HevcPrinters` has the
parameter-set printers as methods on it, `HevcDecoder` a decoder written from sections
7.3.2.1 to 7.3.2.3, 7.3.3, 7.3.7 and 9.2 of ITU-T H.265, and `HevcRoundTrip` and
`HevcSpsRoundTrip` prove that it inverts them, and exactly when; `HevcAnnounce` says what a
decoder learns from the units that are packed. `HevcOrder`, `HevcPoc`,
`HevcSort` and `HevcEncoder` follow the frames of a run: display order, picture order
counts (section 8.3.1), reference lists (section 8.3.4).

**Ring and framing** (`Ring*.dfy`, `PacketCounter.dfy`, `Tcp*.dfy`). `Ring.DataQueue` is the
byte ring used by one thread; `RingSteps` is the same ring under two threads, one byte copy
or counter addition per step, and `RingProgress` proves that neither thread waits for the
other. `PacketCounter`, `TcpFraming`, `TcpClient` and `TcpServer` build on them.

Where the code differs from what its comments or its evident purpose promise, the model
follows the code:

- The comment above `encoding2display_order` lists the periods 7, 14 and 3. With them two
  frames get one display position (`HevcOrder.ListedExampleCollides`); the reordering is a
  permutation exactly when `ip_period` divides `intra_idr_period`, or one of them makes the
  question moot (`HevcOrder.Aligned`).
- `ikcp_wndsize` keeps the receive window at 8192 or more and sets no upper limit, but the
  header shows only 16 bits of it. If the window leaves less than 8191 modulo 65536, as 65536
  does, the two endpoints can come to a standstill before the end of a message; with every
  other window they cannot (`KcpClosedWindow.FinishesExactly`).
- The video parameter set printer drops temporal sub-layers and layer sets, and the sequence
  parameter set printer drops temporal sub-layers and prints long-term entries as ue(v)
  where section 7.3.2.2 has u(v). `HevcRoundTrip.VpsRoundTrip` and
  `HevcSpsRoundTrip.SpsRoundTrip` say exactly which sets are recovered. The values that the
  program fills in need none of what is dropped.
- Only 64 reference sets are filled in, so with longer groups the sets selected for some
  frames are empty (`HevcEncoder.SignalledReferencesAreHeld`).
- `calc_poc` is right as long as anchors are at most 256 frames apart.
- A call of `tcp_send_data_safe` can return if and only if its packet is not empty
  (`TcpFraming.SenderUnblocksIff`). The server's reader stops at a frame of length zero
  (`TcpServer.BadLengthBlocks`), so a client's packets all arrive if and only if none is
  empty (`TcpServer.ClientToServer`).
- The server's reader takes a frame to lie in one piece of the ring. Which packets do is
  `TcpServer.NoStraddle`; three packets of the greatest length do not
  (`TcpServer.ThirdPacketStraddles`).

## Model

| member | source | states |
|---|---|---|
| `KcpEndToEnd.EndToEnd` | src/net/kcp/ikcp.c:358-1114 | over every run of two freshly configured endpoints on a network that loses, repeats and reorders datagrams, each side has returned a prefix of the messages the other side accepted, boundaries and bytes intact |
| `KcpEndToEnd.NothingLost` | src/net/kcp/ikcp.c:567-974 | in every reachable state and both directions each numbered segment is still in the sender's buffer or has been taken by the receiver, and every acknowledgement pending or in flight names only what the receiver has |
| `KcpEndToEnd.NoStall` | src/net/kcp/ikcp.c:358-463 | in both directions a full receive queue always has the next message complete at its head, and a queue with room never leaves the next segment behind in the reorder buffer |
| `KcpEndToEnd.DrainedMeansReceived` | src/net/kcp/ikcp.c:600-614 | in both directions, when the sender holds nothing the receiver has taken every fragment of every accepted message, and unless its queue is full has moved all of them up to the queue |
| `KcpEndToEnd.StepKeepsSystem` | src/net/kcp/ikcp.c:358-1177 | any step of either endpoint keeps the two-sided invariant: content of queues and buffers, soundness of acknowledgements, no loss, prefix of messages |
| `KcpEndToEnd.RecvReturnsNext` | src/net/kcp/ikcp.c:358-435 | a successful receive returns exactly the oldest message not yet returned and its length; when it succeeds is `KcpUser.RecvSucceedsExactly` |
| `KcpEndToEnd.DeliverStep` | src/net/kcp/ikcp.c:768-875 | feeding in any datagram the peer ever emitted keeps the invariant of both directions |
| `KcpEndToEnd.FlushStep` | src/net/kcp/ikcp.c:937-1144 | a flush emits only numbered fragments of accepted messages and sound acknowledgements, and forgets nothing |
| `KcpDelivery.OnPacketLosesNothing` | src/net/kcp/ikcp.c:567-614 | processing una and an ack removes from the send buffer only segments that the peer has |
| `KcpDelivery.OnPushTakes` | src/net/kcp/ikcp.c:833-851 | a pushed segment is acknowledged only if it is, or has been, taken over; the converse is `KcpArrival.PushInWindow` |
| `KcpDelivery.FlushIsSound` | src/net/kcp/ikcp.c:953-1114 | every packet a flush emits is a numbered fragment of the log or an acknowledgement of something held |
| `KcpMessages.FragmentShape` | src/net/kcp/ikcp.c:520-541 | fragment numbers count down to 0, every fragment but the last has exactly mss bytes and the last at most that, and the fragments concatenate to the message |
| `KcpMessages.FragmentCountExact` | src/net/kcp/ikcp.c:509-518 | splitting makes exactly the number of fragments computed up front |
| `KcpMessages.Reassembles` | src/net/kcp/ikcp.c:383-411 | merging a queue that starts with the fragments of a message yields the message, and peeking yields its length |
| `KcpMessages.PeekIsMergedLength` | src/net/kcp/ikcp.c:441-463 | the size peeked is the length of what the merge returns |
| `KcpUser.SendAcceptsExactly` | src/net/kcp/ikcp.c:469-544 | a message is accepted, and its length returned, if and only if its length is from 0 to 8191 times mss; -1 exactly for a negative length, -2 exactly above; an accepted one is queued behind the others in full pieces that count down and join to it, a refused one changes nothing |
| `KcpUser.SendStepExactly` | src/net/kcp/ikcp.c:469-544 | in the system a message of at most 8191 times mss bytes is added to what was accepted, and a longer one changes nothing |
| `KcpUser.RecvSucceedsExactly` | src/net/kcp/ikcp.c:358-463 | in every reachable state and both directions a receive or peek returns the next message and its length if and only if the queue holds all its segments and the room suffices; -1 exactly on an empty queue, -2 exactly when segments are missing, -3 exactly when only room is; a peek or failure changes nothing, a success consumes exactly those segments and asks for a window update exactly when a full queue has room again |
| `KcpWrapSystem.WrappedRecvSucceedsExactly` | src/net/kcp/ikcp.c:358-463 | the same on 32-bit numbers for near runs |
| `KcpArrival.PushInWindow` | src/net/kcp/ikcp.c:833-851 | a segment inside the receive window is acknowledged with its time stamp and had afterwards, on either kind of number; everything had before stays and nothing else comes in |
| `KcpArrival.PushOutsideWindow` | src/net/kcp/ikcp.c:833-851 | a segment before the window only adds its acknowledgement, one beyond it changes nothing |
| `KcpArrival.WrappedPushOutsideWindow` | src/net/kcp/ikcp.c:833-851 | on 32-bit numbers outside the window a segment is old exactly when it is at most half of the circle behind the end of the window |
| `KcpArrival.PacketsAcknowledge` | src/net/kcp/ikcp.c:567-614 | the segments of a datagram remove from the send buffer exactly the numbers that they acknowledge, cumulatively or by name |
| `KcpArrival.SkipsCounted` | src/net/kcp/ikcp.c:616-639 | at the end of an input call one skip is counted on exactly the segments before the largest acknowledgement, if that one is in flight |
| `KcpArrival.ArrivalExactly` | src/net/kcp/ikcp.c:756-907 | all that a datagram does: what is had and acknowledged afterwards, which segments leave the send buffer, the skips, the peer's window, the request to tell the own window, the time samples, and growth of the window exactly when snd_una moved |
| `KcpArrival.DeliveryExactly` | src/net/kcp/ikcp.c:756-907 | in every reachable state and both directions, each data segment of a delivered datagram inside or before the window is had and acknowledged afterwards, and each segment it acknowledges is no longer kept |
| `KcpEmission.FlushExactly` | src/net/kcp/ikcp.c:937-1144 | what a flush puts on the wire: every pending acknowledgement once, in order and in front, then the probes asked for, then exactly the segments that it numbers and those that are overdue or were skipped often enough within the resend limit, each once, in order and with the content of the log |
| `KcpEmission.AdmitExactly` | src/net/kcp/ikcp.c:1026-1048 | the segments numbered are the front of the queue, with the next numbers, as many as the window leaves room for |
| `KcpEmission.FlushRecords` | src/net/kcp/ikcp.c:1054-1087 | each record that is not due stays as it is; each due one is sent once more and due again after its timeout, which backs off after a timeout only |
| `KcpEmission.FlushCounts` | src/net/kcp/ikcp.c:1122-1143 | the window restarts at one segment exactly if a segment was overdue, goes to half of what is in flight plus the resend limit exactly if one was only resent early, and is otherwise unchanged |
| `KcpEmission.FlushDeclaresDead` | src/net/kcp/ikcp.c:1108-1112 | the link is declared dead exactly when a segment just sent has been sent as often as the limit says |
| `KcpEmission.ProbeTimer` | src/net/kcp/ikcp.c:976-996 | the window probe runs exactly while the peer's window is closed: first after seven seconds, then each delay half as long again up to two minutes |
| `KcpEmission.PackIsGreedy` | src/net/kcp/ikcp.c:1094-1103 | a datagram is closed only if the next packet does not fit it by the code's own count |
| `KcpEmission.WindowsLimit` | src/net/kcp/ikcp.c:1022-1048 | a flush that numbers segments leaves no more in flight than each of the three windows allows, and one that leaves segments queued has used one of them up |
| `KcpEmission.EveryFlush` | src/net/kcp/ikcp.c:937-1144 | all of this holds of a flush in every reachable state, in both directions |
| `KcpClosedWindow.FinishesExactly` | src/net/kcp/ikcp.c:358-1177 | from every reachable state, whatever the network has lost, the two endpoints can still return all that was accepted on either side, with nothing but datagrams sent from then on, if and only if the 16 bits in which each shows its window leave at least 8191: in particular for all windows from 8192 to 65535 |
| `KcpRecovery.EverythingArrives` | src/net/kcp/ikcp.c:358-1177 | with such windows a run of updates, flushes, deliveries and receives, none of them of an old datagram, ends with both users having all messages |
| `KcpRecovery.RightGetsAll` | src/net/kcp/ikcp.c:358-1177 | the same for one direction and its window alone |
| `KcpRecovery.ReceiverAdvances` | src/net/kcp/ikcp.c:833-1114 | the segment that the receiver waits for is in the send buffer; sent when its time has come and delivered, it moves rcv_nxt on |
| `KcpRecovery.SenderLearns` | src/net/kcp/ikcp.c:794-1020 | when all that is numbered has arrived, a repeated segment, or a probe of a closed window, is answered, and the answer empties the send buffer and shows the room in the queue |
| `KcpRecovery.SenderNumbers` | src/net/kcp/ikcp.c:1022-1048 | with nothing in flight and the peer's window open, at most two flushes number the next segment, whatever the congestion window |
| `KcpClosedWindow.CanClose` | src/net/kcp/ikcp.c:925-932 | otherwise, for every other setting of the endpoints, some run leads to a state from which they cannot finish: a message of one segment more than what the window shows stays without its last one |
| `KcpClosedWindow.ClosedForGood` | src/net/kcp/ikcp.c:956-1020 | in such a state no update, probe, flush, receive or datagram sent from then on gives the user another message |
| `Circular.WrappedDistanceIsTrue` | src/net/kcp/ikcp.c:136-139 | the 32-bit signed difference equals the true difference if and only if the true one lies in [-2^31, 2^31) |
| `KcpWrap.OnPacketWraps` | src/net/kcp/ikcp.c:794-875 | handling one near packet on 32-bit numbers is the image of handling it on unbounded numbers |
| `KcpWrap.InputWraps` | src/net/kcp/ikcp.c:756-907 | a whole input call, including early returns, commutes with reducing all sequence numbers modulo 2^32 |
| `KcpWrap.RecvWraps` | src/net/kcp/ikcp.c:358-435 | receiving commutes with the reduction and returns the same bytes |
| `KcpWrap.FlushWraps` | src/net/kcp/ikcp.c:937-1144 | flushing commutes with the reduction, in state and in emitted datagrams |
| `KcpWrap.UpdateWraps` | src/net/kcp/ikcp.c:1152-1177 | updating commutes with the reduction |
| `KcpWrapSystem.RunWraps` | src/net/kcp/ikcp.c:136-139 | a whole run of the 32-bit system is the image of the unbounded run, across the wrap, as long as delivered numbers are within reach |
| `KcpWrapSystem.WrappedEndToEnd` | src/net/kcp/ikcp.c:358-435 | message delivery in order and intact on 32-bit sequence numbers, for runs that wrap any number of times with delivered numbers within reach |
| `KcpWrapSystem.ShortRunsEndToEnd` | src/net/kcp/ikcp.c:469-544 | the same with no condition on the network, for runs in which segments and receive window together stay below 2^31 |
| `KcpWrapSystem.WrappedNothingLost` | src/net/kcp/ikcp.c:567-974 | on 32-bit numbers, for near runs that wrap any number of times and in both directions: each number of the send window is held or taken, no receiver stalls, and a drained sender means that rcv_nxt is the number of all fragments modulo 2^32 |
| `KcpWrapSystem.ShortRunsLoseNothing` | src/net/kcp/ikcp.c:358-974 | the same with no condition on the network below 2^31 segments; there each acknowledgement pending or in flight names only what its side has taken |
| `KcpCalls.EveryReachableEndpoint` | src/net/kcp/ikcp.c:358-1177 | after any sequence of calls with any input datagrams, error returns included, sender, receiver and congestion invariants hold and all lists fit their windows |
| `KcpCalls.FreshIsHealthy` | src/net/kcp/ikcp.c:234-299 | the state that creation makes satisfies them |
| `KcpCalls.CallKeepsHealth` | src/net/kcp/ikcp.c:756-907 | one call keeps them, and snd_una never moves back |
| `KcpInvariants.InputKeepsEndpoint` | src/net/kcp/ikcp.c:756-907 | for any datagram the send buffer stays strictly increasing from snd_una, the receive side consecutive and inside its window, and snd_una only advances |
| `KcpInvariants.ShrinkKeepsSender` | src/net/kcp/ikcp.c:567-576 | snd_una is the first buffered number, or snd_nxt, after removing any slice of the buffer |
| `KcpInvariants.DropBelowIsSuffix` | src/net/kcp/ikcp.c:600-614 | a cumulative acknowledgement removes exactly the leading segments below it |
| `KcpInvariants.RemoveSnIsSlice` | src/net/kcp/ikcp.c:578-598 | a selective acknowledgement removes at most the one segment it names |
| `KcpInvariants.AdmitKeepsSender` | src/net/kcp/ikcp.c:1026-1048 | moving segments to the send buffer never opens more than the send window |
| `KcpInvariants.InsertKeepsOrder` | src/net/kcp/ikcp.c:702-721 | the reorder buffer stays strictly increasing and inside the window |
| `KcpInvariants.InsertContents` | src/net/kcp/ikcp.c:702-721 | insertion keeps every segment, adds at most the new one, and the number is present afterwards |
| `KcpInvariants.InReceiveWindow` | src/net/kcp/ikcp.c:696-700 | the two signed comparisons accept a number if and only if it lies in the receive window |
| `KcpInvariants.MoveReadyKeepsReceiver` | src/net/kcp/ikcp.c:727-739 | after moving, the receive queue is consecutive up to rcv_nxt and the head of the reorder buffer is not rcv_nxt unless the queue is full |
| `KcpInvariants.OnPushKeepsReceiver` | src/net/kcp/ikcp.c:833-851 | a push, in or out of the window, keeps the receiver in order and settled |
| `KcpInvariants.RecvKeepsReceiver` | src/net/kcp/ikcp.c:358-435 | a receive or a peek keeps the receiver in order, and settled unless it failed unsettled |
| `KcpInvariants.FlushKeepsEndpoint` | src/net/kcp/ikcp.c:937-1144 | a flush keeps the invariants and snd_una, and touches nothing of the receive side but the acknowledgement list |
| `KcpInvariants.UpdateKeepsEndpoint` | src/net/kcp/ikcp.c:1152-1177 | so does an update |
| `KcpInvariants.ListsFitWindows` | src/net/kcp/ikcp.c:925-932 | buffer and queue lengths never exceed the windows |
| `KcpTimers.CheckIsSafe` | src/net/kcp/ikcp.c:1189-1225 | before the time that the check returns an update flushes nothing and no buffered segment is due, and that time is at most one interval away, on the 32-bit clock |
| `KcpTimers.CheckIsTight` | src/net/kcp/ikcp.c:1189-1225 | if the time is less than an interval away, an update then flushes or a segment is due |
| `KcpTimers.TickExactly` | src/net/kcp/ikcp.c:1152-1177 | an update flushes exactly if it is the first, the time has come or the clock has jumped, and the next flush is then due one interval after the one that was due, or after now when more than an interval was missed |
| `KcpTimers.FlushesKeepPace` | src/net/kcp/ikcp.c:1152-1177 | updates closer together than the interval flush exactly once for each interval that passes, without drift and across any number of wraps of the clock |
| `KcpTimers.FlushSchedulesExactly` | src/net/kcp/ikcp.c:1054-1087 | after a flush every buffered segment is due later than now if and only if each segment visited is given a delay below half of the 32-bit circle |
| `KcpTimers.FlushSchedulesAll` | src/net/kcp/ikcp.c:1054-1087 | while the timeouts can still double, every buffered segment is counted as sent after a flush and is due later than now; what a flush puts on the wire is `KcpEmission.FlushExactly` |
| `KcpTimers.VisitSchedules` | src/net/kcp/ikcp.c:1058-1087 | first sending, timeout, fast resend and waiting leave a segment due later than now if and only if what they add to the clock is positive and below half of the 32-bit circle |
| `KcpTimers.RtoStaysBounded` | src/net/kcp/ikcp.c:550-565 | the retransmission timeout stays between the configured minimum and the maximum |
| `KcpTimers.EstimateTracks` | src/net/kcp/ikcp.c:550-561 | the first sample becomes the estimate; later the smoothed round-trip time moves an eighth of the way to the sample, not below one, and stays between the two, and the deviation moves a quarter of the way |
| `KcpTimers.TimeoutCovers` | src/net/kcp/ikcp.c:562-564 | unless clipped, the timeout is at least the smoothed time plus four deviations, and plus an interval, if and only if that sum fits 32 bits or wraps to a value raised to the maximum |
| `KcpInvariants.FastackCountsEarlier` | src/net/kcp/ikcp.c:616-639 | an acknowledgement counts one skip for exactly the segments numbered before it |
| `KcpCongestion.GrowKeepsBand` | src/net/kcp/ikcp.c:881-903 | an input call keeps incr strictly between cwnd-1 and cwnd+1 segments and raises cwnd by at most 2 |
| `KcpCongestion.GrowsExactly` | src/net/kcp/ikcp.c:881-903 | below the threshold the window grows by one segment; above it incr creeps by mss*mss/incr + mss/16 and the window follows it in whole segments; neither passes the peer's window |
| `KcpCongestion.WindowOpens` | src/net/kcp/ikcp.c:881-903 | as long as the peer's window is larger, at most 64 advancing inputs open the window by a segment |
| `KcpCongestion.AdjustKeepsBand` | src/net/kcp/ikcp.c:1122-1143 | fast resend and loss keep the band, ssthresh >= 2 and cwnd >= 1 |
| `KcpCalls.InputKeepsHealth` | src/net/kcp/ikcp.c:881-903 | the band and its bound survive any input, which raises cwnd by at most 2 |
| `KcpCalls.FlushKeepsHealth` | src/net/kcp/ikcp.c:1122-1143 | and any flush, after which cwnd is at least 1 |
| `KcpCodec.DecodeOfEncode` | src/net/kcp/ikcp.c:912-923 | the fields read from a written header are the fields written |
| `KcpCodec.ParseEncoded` | src/net/kcp/ikcp.c:768-875 | the header loop recovers a run of written segments, its own count running 2 bytes too high per segment |
| `KcpCodec.DatagramRoundTrip` | src/net/kcp/ikcp.c:768-875 | a datagram of at most 11 segments is read back exactly; from 12 segments on the loop looks at one more header behind the end |
| `KcpCodec.AckBurstOverruns` | src/net/kcp/ikcp.c:962-972 | a burst of 12 to 53 acknowledgements makes one such datagram with the default mtu |
| `KcpCodec.ParsedAreOnWire` | src/net/kcp/ikcp.c:775-796 | whatever the bytes, accepted segments have the right conversation, a known command and 32-bit numbers |
| `KcpCodec.PackKeepsOrder` | src/net/kcp/ikcp.c:964-1120 | packing splits a packet list into datagrams that concatenate to it |
| `KcpCodec.PackRespectsMtu` | src/net/kcp/ikcp.c:1094-1103 | each datagram has at most mtu + 2 bytes if no packet has more than mss |
| `KcpCodec.CutIsPack` | src/net/kcp/ikcp.c:1094-1120 | filling the output buffer packet by packet and flushing it is the same as packing |
| `KcpWire.FlushPacketisation` | src/net/kcp/ikcp.c:937-1120 | one flush emits the pending acknowledgements, probes and due segments in order, none split, in datagrams of at most mtu + 2 bytes |
| `KcpWire.RunEncodable` | src/net/kcp/ikcp.c:912-923 | in every run all emitted segments fit the header fields |
| `KcpWire.EmittedDatagramsReadBack` | src/net/kcp/ikcp.c:756-875 | every emitted datagram of at most 11 segments is read back by the peer as the segments that were packed |
| `KcpBytes.StepOnBytes` | src/net/kcp/ikcp.c:756-907 | one step of an endpoint that receives and emits bytes is the image of the step on segments, while datagrams have at most 11 of them |
| `KcpBytes.RunOnBytes` | src/net/kcp/ikcp.c:756-1120 | so is a whole run of the two endpoints, with any bytes left behind a datagram in the receive buffer |
| `KcpBytes.BytesEndToEnd` | src/net/kcp/ikcp.c:358-1120 | over a network of byte strings and 32-bit numbers each side has returned a prefix of the messages the other side accepted |
| `KcpBytes.SmallMtuEndToEnd` | src/net/kcp/ikcp.c:1094-1120 | with an mtu of at most 309 and below 2^31 segments this needs no condition on datagrams or network |
| `Kcp.ControlBlock.constructor` | src/net/kcp/ikcp.c:234-299 | a new control block has the state of creation |
| `Kcp.ControlBlock.PeekSize` | src/net/kcp/ikcp.c:441-463 | returns the size of the message at the head, or -1 |
| `Kcp.ControlBlock.Recv` | src/net/kcp/ikcp.c:358-435 | refines the receive function on 32-bit numbers, with its error codes and the peek form |
| `Kcp.ControlBlock.MoveReady` | src/net/kcp/ikcp.c:413-425 | moves the consecutive head of the reorder buffer while the queue has room |
| `Kcp.ControlBlock.Send` | src/net/kcp/ikcp.c:469-544 | refines the send function: the fragments are appended, or the call is refused with the queue unchanged |
| `Kcp.ControlBlock.UpdateAck` | src/net/kcp/ikcp.c:550-565 | refines the round-trip estimate |
| `Kcp.ControlBlock.ShrinkBuf` | src/net/kcp/ikcp.c:567-576 | snd_una becomes the first buffered number or snd_nxt |
| `Kcp.ControlBlock.ParseAck` | src/net/kcp/ikcp.c:578-598 | the loop removes what the specification removes, with the counter |
| `Kcp.ControlBlock.ParseUna` | src/net/kcp/ikcp.c:600-614 | the loop drops what the specification drops, with the counter |
| `Kcp.ControlBlock.ParseFastack` | src/net/kcp/ikcp.c:616-639 | the loop counts skips for exactly the segments before the acknowledged one |
| `Kcp.ControlBlock.InsertSegment` | src/net/kcp/ikcp.c:702-721 | the backward search inserts where the specification inserts, or finds the duplicate |
| `Kcp.ControlBlock.ParseData` | src/net/kcp/ikcp.c:690-739 | refines window check, insertion and move |
| `Kcp.ControlBlock.OnPacket` | src/net/kcp/ikcp.c:794-875 | refines the handling of one segment of each command |
| `Kcp.ControlBlock.InputLoop` | src/net/kcp/ikcp.c:768-875 | the loop processes exactly the segments that parsing yields and returns its code |
| `Kcp.ControlBlock.Input` | src/net/kcp/ikcp.c:756-907 | refines the whole input call on bytes |
| `Kcp.ControlBlock.FlushAcks` | src/net/kcp/ikcp.c:962-974 | writes the pending acknowledgements in order and empties the list |
| `Kcp.ControlBlock.FlushProbes` | src/net/kcp/ikcp.c:998-1020 | writes the probes that are asked for and clears both flags |
| `Kcp.ControlBlock.Admit` | src/net/kcp/ikcp.c:1026-1048 | refines moving segments into the send buffer |
| `Kcp.ControlBlock.VisitSegment` | src/net/kcp/ikcp.c:1058-1087 | refines the decision to send one segment |
| `Kcp.ControlBlock.FlushData` | src/net/kcp/ikcp.c:1054-1114 | refines the pass over the send buffer: records, bytes and totals |
| `Kcp.ControlBlock.AdjustCwnd` | src/net/kcp/ikcp.c:1122-1143 | refines the window changes after a flush |
| `Kcp.ControlBlock.Flush` | src/net/kcp/ikcp.c:937-1144 | the new state and the bytes handed to the output callback are those of the specification |
| `Kcp.ControlBlock.Update` | src/net/kcp/ikcp.c:1152-1177 | refines the clock, its resynchronisation and the flush |
| `Kcp.ControlBlock.Check` | src/net/kcp/ikcp.c:1189-1225 | returns the time of the specification |
| `HevcBitstream.Bitstream.constructor` | src/codec/vaapi/vaapi_hevc_encodec.c:436-443 | an empty writer holds no bits |
| `HevcBitstream.Bitstream.PutUi` | src/codec/vaapi/vaapi_hevc_encodec.c:457-484 | appends exactly the size low bits of the value, whatever junk is left above the live bits of the current word |
| `HevcBitstream.Bitstream.End` | src/codec/vaapi/vaapi_hevc_encodec.c:445-455 | afterwards memory is the written bits packed most significant bit first, padded with zeros |
| `HevcBitstream.Bitstream.PutUe` | src/codec/vaapi/vaapi_hevc_encodec.c:486-499 | appends one ue(v) element; the two calls make its code |
| `HevcBitstream.Bitstream.PutSe` | src/codec/vaapi/vaapi_hevc_encodec.c:501-512 | appends one se(v) element |
| `HevcBitstream.Bitstream.ByteAligning` | src/codec/vaapi/vaapi_hevc_encodec.c:514-532 | fills the current byte with the given bit |
| `HevcBitstream.Bitstream.RbspTrailingBits` | src/codec/vaapi/vaapi_hevc_encodec.c:534-539 | appends a one and zeros up to a whole byte |
| `HevcBitstream.Bitstream.NalStartCodePrefix` | src/codec/vaapi/vaapi_hevc_encodec.c:541-550 | appends the 4-byte start code for parameter sets and delimiters, the 3-byte one otherwise |
| `HevcBitstream.Bitstream.NalHeader` | src/codec/vaapi/vaapi_hevc_encodec.c:552-558 | appends the four header fields |
| `HevcBitstream.WordAppends` | src/codec/vaapi/vaapi_hevc_encodec.c:470-475 | shifting a value into a word appends its bits to the live ones, and a filled word has shed its junk |
| `HevcBitstream.AcrossWords` | src/codec/vaapi/vaapi_hevc_encodec.c:472-483 | a value across two words leaves the first one complete and swapped, and the second one holding its low bits |
| `HevcBitstream.SwapReversesBytes` | src/codec/vaapi/vaapi_hevc_encodec.c:425-434 | swapping reverses the four bytes |
| `HevcBitstream.EndCompletes` | src/codec/vaapi/vaapi_hevc_encodec.c:445-455 | shifting up the last partial word completes it with zeros |
| `HevcBitstream.PaddedBytes` | src/codec/vaapi/vaapi_hevc_encodec.c:445-455 | each byte of memory is the next eight bits |
| `HevcExpGolomb.UeRoundTrip` | src/codec/vaapi/vaapi_hevc_encodec.c:486-499 | the parsing process of section 9.2 of H.265 recovers the number from its code and stops behind it |
| `HevcExpGolomb.SeRoundTrip` | src/codec/vaapi/vaapi_hevc_encodec.c:501-512 | the same for signed numbers |
| `HevcExpGolomb.UePrefixFree` | src/codec/vaapi/vaapi_hevc_encodec.c:486-499 | no code is a prefix of another |
| `HevcExpGolomb.UeCanonical` | src/codec/vaapi/vaapi_hevc_encodec.c:486-499 | whatever parses is the code of what it parses as |
| `HevcExpGolomb.ListRoundTrip` | src/codec/vaapi/vaapi_hevc_encodec.c:457-512 | any list of u(n), ue(v) and se(v) elements is read back by its descriptors |
| `HevcExpGolomb.ListCanonical` | src/codec/vaapi/vaapi_hevc_encodec.c:457-512 | and whatever a list of descriptors reads are the bits of the list read |
| `HevcRoundTrip.PpsRoundTrip` | src/codec/vaapi/vaapi_hevc_encodec.c:1079-1176 | a decoder by section 7.3.2.3 recovers every field of every printed picture parameter set, tiles and deblocking included |
| `HevcRoundTrip.VpsRoundTrip` | src/codec/vaapi/vaapi_hevc_encodec.c:939-984 | a decoder by section 7.3.2.1 recovers a video parameter set if and only if it has one temporal layer, no further layer sets and the three fixed header values |
| `HevcRoundTrip.VpsHeadBits` | src/codec/vaapi/vaapi_hevc_encodec.c:942-948 | the printed constants are the bits of two set flags and a zero layer count |
| `HevcRoundTrip.SameProfileBits` | src/codec/vaapi/vaapi_hevc_encodec.c:898-916 | the printed 16 + 16 + 12 zeros are the 43 constraint bits and the reserved bit of section 7.3.3 |
| `HevcRoundTrip.VpsTook` | src/codec/vaapi/vaapi_hevc_encodec.c:939-984 | what the standard reads for sub-layers and layer sets is never printed |
| `HevcSpsRoundTrip.SpsRoundTrip` | src/codec/vaapi/vaapi_hevc_encodec.c:986-1077 | a decoder by section 7.3.2.2 recovers a sequence parameter set, with its list of reference sets, if and only if it has neither temporal sub-layers nor long-term entries |
| `HevcSpsRoundTrip.RefSetsBack` | src/codec/vaapi/vaapi_hevc_encodec.c:917-937 | the variable-length list of short-term reference sets is read back |
| `HevcSpsRoundTrip.UeIsNotU` | src/codec/vaapi/vaapi_hevc_encodec.c:1063-1066 | a long-term entry printed as ue(v) is never read back as a u(v) of four bits or more |
| `HevcSpsRoundTrip.SubLayersNotBack` | src/codec/vaapi/vaapi_hevc_encodec.c:986-991 | with temporal sub-layers no set is read back |
| `HevcSpsRoundTrip.LongTermsNotBack` | src/codec/vaapi/vaapi_hevc_encodec.c:1060-1068 | with long-term entries no set is read back |
| `HevcSpsRoundTrip.LastBitPrinted` | src/codec/vaapi/vaapi_hevc_encodec.c:1062-1067 | two bits before the end of the printed entries lies the low bit of one more than the last number |
| `HevcSpsRoundTrip.LastBitRead` | src/codec/vaapi/vaapi_hevc_encodec.c:1062-1067 | two bits before the end of the entries that are read lies the low bit of the last number itself |
| `HevcPrinters.ProtierRbsp` | src/codec/vaapi/vaapi_hevc_encodec.c:898-916 | writes the profile elements |
| `HevcPrinters.PutOrderings` | src/codec/vaapi/vaapi_hevc_encodec.c:957-963 | the loop writes exactly the covered ordering entries |
| `HevcPrinters.VpsRbsp` | src/codec/vaapi/vaapi_hevc_encodec.c:939-984 | writes the elements of the video parameter set |
| `HevcPrinters.PackShortTermRefPicSet` | src/codec/vaapi/vaapi_hevc_encodec.c:917-937 | writes the elements of one reference set |
| `HevcPrinters.SpsRbsp` | src/codec/vaapi/vaapi_hevc_encodec.c:986-1077 | writes the elements of the sequence parameter set |
| `HevcPrinters.PpsRbsp` | src/codec/vaapi/vaapi_hevc_encodec.c:1079-1176 | writes the elements of the picture parameter set |
| `HevcPrinters.BuildPackedVideoBuffer` | src/codec/vaapi/vaapi_hevc_encodec.c:1459-1473 | memory holds start code, header, parameter set and trailing bits as bytes |
| `HevcPrinters.BuildPackedSeqBuffer` | src/codec/vaapi/vaapi_hevc_encodec.c:1475-1489 | the same for the sequence parameter set |
| `HevcPrinters.BuildPackedPicBuffer` | src/codec/vaapi/vaapi_hevc_encodec.c:1444-1458 | the same for the picture parameter set |
| `HevcPrinters.UnitsReadBack` | src/codec/vaapi/vaapi_hevc_encodec.c:1444-1489 | behind the 48 bits of start code and header the decoder recovers the set and is left with the trailing bits |
| `HevcPrinters.PayloadOf` | src/codec/vaapi/vaapi_hevc_encodec.c:1444-1489 | behind start code and header come the payload bits, a one and fewer than eight zeros |
| `HevcFill.FilledSetsReadBack` | src/codec/vaapi/vaapi_hevc_encodec.c:592-828 | whatever the options, the three parameter sets that the encoder fills in and packs are recovered from their buffers; what they announce is `HevcAnnounce.AnnouncedSets` |
| `HevcFill.SpsFits` | src/codec/vaapi/vaapi_hevc_encodec.c:683-781 | every field filled into the sequence parameter set fits its code |
| `HevcFill.RefSetsFit` | src/codec/vaapi/vaapi_hevc_encodec.c:646-681 | so do the reference sets, one for each position in a group, as far as there is room for sets |
| `HevcAnnounce.AnnouncedSets` | src/codec/vaapi/vaapi_hevc_encodec.c:592-828 | a decoder that reads the three packed units from their first bit finds units of the right type that refer to each other, sizes that are the least multiples of 16, a window that crops them to the frame and is absent exactly if nothing is cropped, as many reference sets as a group has frames, the profile, level and reordering asked for, and the given quantiser |
| `HevcAnnounce.UnitHeadBack` | src/codec/vaapi/vaapi_hevc_encodec.c:541-558 | start code and header of any unit are read back: a 4-byte start code exactly for parameter sets and delimiters, the type, layer 0 and temporal level 0 |
| `HevcAnnounce.UnitSaysItsType` | src/codec/vaapi/vaapi_hevc_encodec.c:1444-1489 | so a packed unit says what it is and its payload begins 48 bits in |
| `HevcAnnounce.DecodedSetsNameAnchors` | src/codec/vaapi/vaapi_hevc_encodec.c:646-681 | for every inter frame of every run, the decoded set that the frame selects names exactly the anchors around it if and only if it is one of the first 64 |
| `HevcOrder.ReorderingIsPermutation` | src/codec/vaapi/vaapi_hevc_encodec.c:1541-1587 | the reordering is injective, and is surjective, if and only if no group of frames crosses the end of an IDR block |
| `HevcOrder.Inverse` | src/codec/vaapi/vaapi_hevc_encodec.c:1541-1587 | with aligned groups an explicit inverse exists in both directions, and each IDR block is mapped onto itself |
| `HevcOrder.MovesLittle` | src/codec/vaapi/vaapi_hevc_encodec.c:1569-1585 | no frame is shown more than one position earlier or ip_period - 1 later than coded, and none before its IDR frame |
| `HevcOrder.UnalignedCollides` | src/codec/vaapi/vaapi_hevc_encodec.c:1509-1536 | otherwise the anchor cut off by the end of the first block shares its display position with another frame |
| `HevcOrder.UnalignedMisses` | src/codec/vaapi/vaapi_hevc_encodec.c:1509-1536 | and the last position of the first block is never shown |
| `HevcOrder.ListedExampleCollides` | src/codec/vaapi/vaapi_hevc_encodec.c:1527-1530 | with the listed periods 7, 14 and 3 frames 13 and 15 are both shown at 15 |
| `HevcOrder.IntraFramesArePeriodic` | src/codec/vaapi/vaapi_hevc_encodec.c:1573-1582 | inside a block intra frames are coded every intra_period - 1 frames |
| `HevcPoc.PocTheorem` | src/codec/vaapi/vaapi_hevc_encodec.c:560-590 | both calls return the true POC for every frame of every run if and only if anchors are at most 256 frames apart |
| `HevcPoc.RecoveredIff` | src/codec/vaapi/vaapi_hevc_encodec.c:573-582 | a POC is recovered from its 9 low bits if and only if it is less than 256 below or at most 256 above the previous one |
| `HevcPoc.StaticsHoldAnchor` | src/codec/vaapi/vaapi_hevc_encodec.c:584-588 | the statics hold the POC of the last anchor whenever a frame of the block is coded |
| `HevcPoc.PocsAroundAnchors` | src/codec/vaapi/vaapi_hevc_encodec.c:2739-2747 | an anchor lies one step after the last anchor, a B frame less than one step before it |
| `HevcEncoder.Encoder.CalcPoc` | src/codec/vaapi/vaapi_hevc_encodec.c:560-590 | refines the reconstruction and the update of the two statics |
| `HevcEncoder.Encoder.EncodeFrame` | src/codec/vaapi/vaapi_hevc_encodec.c:2739-2769 | keeps the invariant; both calls give the true POC, and the lists of a P or B frame are the held anchors in the right order |
| `HevcEncoder.Encoder.EncodeFrames` | src/codec/vaapi/vaapi_hevc_encodec.c:2735-2773 | over a whole run every frame gets its true POC twice |
| `HevcEncoder.Encoder.UpdateReferenceFrames` | src/codec/vaapi/vaapi_hevc_encodec.c:2134-2149 | the current picture goes to the front and the oldest drops out; a B frame changes nothing |
| `HevcEncoder.Encoder.UpdateRefPicList` | src/codec/vaapi/vaapi_hevc_encodec.c:2151-2169 | list 0 of a B frame is past then future, list 1 future then past; the list of a P frame is newest first |
| `HevcEncoder.HeldRefsNext` | src/codec/vaapi/vaapi_hevc_encodec.c:2743-2768 | coding a frame turns the held references into those of the next frame |
| `HevcEncoder.SignalledReferencesAreHeld` | src/codec/vaapi/vaapi_hevc_encodec.c:646-681 | the reference set selected for an inter frame names exactly the anchors around it if and only if it is one of the 64 that are filled in; what a set names is held |
| `HevcSort.SortOne` | src/codec/vaapi/vaapi_hevc_encodec.c:2106-2120 | stays in bounds, permutes only its part, and leaves it sorted in either direction |
| `HevcSort.SortTwo` | src/codec/vaapi/vaapi_hevc_encodec.c:2122-2132 | for a key between two pictures and equal to none: one side first, then the other, each sorted in its own direction |
| `HevcSort.Partition` | src/codec/vaapi/vaapi_hevc_encodec.c:2084-2104 | the scans stop inside the part, both ends move, and what is left and right of them is on the right side of the key |
| `Ring.DataQueue.EnqueueData` | src/common/queue.c:40-71 | appends all of the data if there is room, in one or two pieces; returns its length, 0 without room, -1 if larger than the ring |
| `Ring.DataQueue.DequeueData` | src/common/queue.c:73-104 | takes the first bytes out, in one or two pieces, or fails without change |
| `Ring.DataQueue.ReadData` | src/common/queue.c:106-133 | returns the same bytes and takes nothing out |
| `Ring.DataQueue.TailPointForward` | src/common/queue.c:135-153 | drops bytes from the front, or fails without change |
| `Ring.DataQueue.HeadPointForward` | src/common/queue.c:155-173 | the bytes behind the write pointer, whatever they are, become part of the content; 0 without room, -1 if larger than the ring, and then no change |
| `Ring.DataQueue.EndDataCount` | src/common/queue.c:207-218 | what lies at the read pointer, up to the end of the buffer, is the front of the content |
| `Ring.DataQueue.EndFreeCount` | src/common/queue.c:220-232 | as much may be written through the write pointer: it is free and inside the buffer |
| `Ring.DataQueue.WriteDirect` | src/common/queue.c:175-182 | writing through the pointer and moving the head appends |
| `Ring.StoreAppends` | src/common/queue.c:55-66 | storing into the free part appends to the live bytes |
| `RingSteps.RingIsFifo` | src/common/queue.c:40-232 | for every interleaving of byte copies, counter additions and direct pointer writes and reads of one producer and one consumer: the counters are at most a buffer apart, the live bytes are the published unreleased part of the stream, and what was returned is a prefix of what was accepted |
| `RingSteps.DequeueReturnsNext` | src/common/queue.c:87-99 | a finished dequeue or read returns the next bytes of the stream, even between two publications of an enqueue |
| `RingSteps.StepKeeps` | src/common/queue.c:55-66 | each copy of a byte and each addition keeps the invariant |
| `RingSteps.FillKeeps` | src/common/queue.c:175-191 | filling the counted free piece behind the write pointer touches no live byte, and moving the head then publishes exactly those bytes |
| `RingSteps.DrainKeeps` | src/common/queue.c:207-232 | the counted piece at the read pointer is read as the next bytes of the stream, whatever the producer does meanwhile |
| `RingProgress.AllCanBeTaken` | src/common/queue.c:40-133 | from every state of every interleaving each thread can finish its call while the other stands still, and one dequeue then takes all that is left |
| `RingProgress.EnqueueFinishes` | src/common/queue.c:40-71 | an enqueue in progress needs no step of the consumer, whatever that is doing, and leaves everything published |
| `RingProgress.DequeueFinishes` | src/common/queue.c:73-133 | a dequeue or read in progress needs no step of the producer, and returns the bytes it asked for |
| `PacketCounter.PopsWholePackets` | src/clients/pyqt/pyqt_proxy.c:121-143 | in every interleaving the count never exceeds the complete packets in the ring, no dequeue of a pop fails, and the packets popped are the oldest ones in order |
| `PacketCounter.AskSucceeds` | src/clients/pyqt/pyqt_proxy.c:121-130 | both dequeues of a pop find their bytes |
| `PacketCounter.EventKeeps` | src/clients/pyqt/pyqt_proxy.c:212-238 | every event of receiver and decoder keeps the invariant |
| `TcpFraming.ServerToClient` | src/net/tcp_server.c:256-288 | for every schedule of partial sends and receives the callback gets a prefix of the non-empty packets, all of them once nothing is on the way, and the client never exits |
| `TcpFraming.EventKeeps` | src/net/tcp_server.c:180-208 | each event conserves the queued bytes across ring, stream and client |
| `TcpFraming.EmptyPacketBlocks` | src/net/tcp_server.c:273-284 | an empty packet stops the sender for good |
| `TcpFraming.SenderUnblocksIff` | src/net/tcp_server.c:273-284 | once the length is queued, some schedule lets the call return if and only if the packet is not empty |
| `TcpClient.RecvAll` | src/net/tcp_client.c:16-34 | however the stream is cut, the buffer gets the next bytes of it; -1 exactly when the last receive failed or the stream ended, all before it having moved bytes |
| `TcpClient.Receiver.RecvPkt` | src/net/tcp_client.c:36-62 | consumes one frame and hands out its payload; -1 only after a receive that failed or met the end, -2 only for a length that is too big |
| `TcpClient.Receiver.RecvThread` | src/net/tcp_client.c:100-106 | over a stream of frames the callback gets a prefix of their non-empty payloads, all of them if the frames are all received, and the loop ends only at a receive that failed or met the end |
| `TcpClient.SendAll` | src/net/tcp_client.c:64-82 | sends all of the data however little goes at once; -1 exactly when the last send failed, and then a prefix is sent |
| `TcpClient.SendPkt` | src/net/tcp_client.c:84-94 | a successful call sends exactly one frame; it fails only at a send that failed |
| `TcpServer.Connection.CheckRecvPkt` | src/net/tcp_server.c:138-160 | hands out the first frame if and only if it is complete, and removes it |
| `TcpServer.Connection.CallbackRecvData` | src/net/tcp_server.c:162-178 | hands out every complete frame of what is stored and received, and keeps the rest; the connection is removed exactly when the receive returns 0 |
| `TcpServer.Connection.CallbackSendData` | src/net/tcp_server.c:180-208 | moves to the socket as many bytes of the front of the send ring as the send returns, none on a failed send; the connection is removed exactly when it returns 0 |
| `TcpServer.Connection.TcpSendDataUnsafe` | src/net/tcp_server.c:290-300 | refuses without room, else queues the whole frame; it then returns if and only if the packet is not empty |
| `TcpServer.ClientToServer` | src/net/tcp_server.c:138-178 | whatever the chunks, a prefix of the client's packets is handed out; with the whole stream it is the packets before the first empty one, so all of them if and only if none is empty |
| `TcpServer.AnyChunking` | src/net/tcp_server.c:162-178 | a run of callbacks hands out what one look at the whole stream would |
| `TcpServer.UnbrokenIsNoStraddle` | src/net/tcp_server.c:138-160 | no frame looked at crosses the end of the ring if and only if, frame by frame, the packets fit behind each other |
| `TcpServer.ThirdPacketStraddles` | src/net/tcp_server.c:138-160 | three packets of the greatest length do not: the third frame crosses the end |
| `TcpServer.Serve` | src/net/tcp_server.c:162-178 | repeated callbacks on the ring hand out a prefix of the packets, and once all is received the packets before the first empty one |
| `TcpServer.BadLengthBlocks` | src/net/tcp_server.c:146-157 | a frame with length zero or above 2^31 - 1 is never passed |

## Left out

KCP:

- Stream mode: creation sets it to 0 and nothing in the repository changes it.
- `ikcp_setmtu`, `ikcp_nodelay` and `ikcp_wndsize` as calls: an endpoint is configured in any way before its first use, with windows below 2^30, and keeps its configuration.
- The intrusive lists as pointers: they are sequences, so aliasing of nodes is not captured; the counters beside them are kept and proved right. The fields of the control block are grouped into records.
- Allocation failure, the doubling of the acknowledgement array, logging, NULL buffers and user pointers.
- Kcp.ControlBlock.UpdateAck: signed overflow in the estimate, which C leaves undefined, is not modelled.
- Kcp.ControlBlock.Input: needs readable memory a twelfth beyond the datagram; what lies beyond a shorter buffer is undefined.
- KcpEndToEnd.EndToEnd: is on unbounded sequence numbers and lists of segments; `KcpWrapSystem.WrappedEndToEnd` is on 32 bits and `KcpBytes.BytesEndToEnd` on bytes, for datagrams of at most 11 segments; `KcpCodec.DatagramRoundTrip` shows that the reader passes the end of longer ones.
- KcpTimers.FlushSchedulesAll: assumes that the timeouts of the buffered segments, not only the estimate, are below 2^30; `KcpTimers.FlushSchedulesExactly` has the exact condition.
- KcpCongestion.GrowKeepsBand: assumes that no product of window and segment size passes 2^32.
- KcpClosedWindow.FinishesExactly: says that a run to the end exists from every state, with updates at times of the 32-bit clock that the run chooses; that every fair schedule gets there is not stated. It is on unbounded sequence numbers.
- The build options that the file leaves undefined (conservative fast acknowledgement).

HEVC:

- Slice headers: the printer writes an unmasked POC into a narrower field, so nothing clean can be said.
- HevcFill.FilledSetsReadBack: at most 66 frames in a group, the length of the array of reference sets, behind which the printer would read; the result of the logarithm is an input.
- Scaling lists, VUI, timing information and extensions: the program never turns them on; the printers are modelled with their flags at 0.
- HevcBitstream.Bitstream.PutUi: 32 bits at once behind a whole number of words are left out, since C leaves the shift by 32 undefined; at the start, as for the start code, it meets a zeroed word.
- HevcSort.SortTwo: a key that some picture has, or one with all pictures on one side, is left out, since the scans may then leave the array; `HevcEncoder.Encoder.EncodeFrame` proves that this never occurs.
- HevcEncoder.Encoder.EncodeFrame: is stated for anchors at most 256 frames apart; `HevcPoc.PocTheorem` shows that it fails beyond.
- Frame numbers, POCs and the position in an endless block are unbounded; the code keeps the latter two in an `int`.
- Emulation prevention, the floating-point logarithms in the sequence parameter set, and everything that calls the driver.

Ring and framing:

- RingSteps.RingIsFifo: head and tail are unbounded; the code's 64-bit counters would wrap after 2^64 bytes, at a place that is not a multiple of the ring size.
- TcpServer.Connection.CallbackRecvData: no frame crosses the end of the buffer; the code would read beyond the array there.
- TcpServer.Connection.CheckRecvPkt: the same, for the frame and the length field at the front.
- TcpFraming.ServerToClient: has one sending thread; packets are at most BUFLEN bytes.
- The sockets, epoll, locks and condition variables: receiving and sending move any permitted number of bytes, and waiting is repeating the attempt.
- PacketCounter.PopsWholePackets: covers video packets; responses never enter the ring.
- The ring of integers (`queue_put_int`): it accepts a put into a full ring, so it is no queue at that boundary.
- The device buffer queue and the request list of the client, capture, display, codecs other than this one, and the user interface.
