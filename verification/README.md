# A verified model of OmniSocket: KCP, TCP framing and file transfer

The repository moves files between a client and a server over TCP or over KCP, an ARQ protocol on top of UDP. This
project models the reliable part of it and proves what it is for: whatever the network does, the receiver gets a prefix
of what was sent, nothing is lost for good, and the server's file is a prefix of the client's until it is all of it.

## How the model is built

**Endpoint.** `Types`, `Serial`, `Wire`, `Messages`, `Receive`, `Transmit`, `Timers`, `Congestion`, `Endpoint` describe
one `ikcpcb` as a value and every operation of `ikcp.c` as a function on it. Sequence-number arithmetic is a parameter,
`Arith`: `Wrap` is `IUINT32` compared by the sign of a 32-bit difference, as the program does it, `Exact` is unbounded.
Time is always 32-bit. All other truncations are written out with `U32` and `S32`.

**Program.** `KcpClass.Kcp` is `ikcp.c` as it is written: the members of `IKCPCB` with their counters, updated in place
by methods with the real loops, an output buffer filled by a moving `ptr` (`Packers`), the growable `acklist`
(`AckLists`). Each method is proved equal to its function under `Wrap`, so everything below holds of the program. The
linked-list macros are proved in `Rings`. `KcpContexts` is `kcp_impl.c` on top of it, `TcpSockets` is `tcp_impl.c`,
`TransferPrograms` the loops of `client_main.c` and `server_main.c`.

**Laws.** `FlushLaws` and `InputLaws` say what one `ikcp_flush` and one `ikcp_input` do, told of the control block before
and after and not by the model's own functions: how far numbering goes, what is sent and with what timeout, what is
counted as skipped, what becomes of the windows. `CallLaws` carries this to every endpoint that any calls lead to,
`FlowControl` to runs of two endpoints.

**System.** Two endpoints and the list of all datagrams ever emitted. A run is a list of events: send, recv, update at
any time, flush, or deliver any datagram of the list; loss, duplication and reordering are the choice of events. The
endpoints carry their history: accepted messages, received messages, fragments by true sequence number. `Safety.Inv` is
the invariant of all runs over unbounded numbers; `Refinement.RunImage` carries it to 32-bit runs across any number of
wrap-arounds.

**Freshness.** A 32-bit comparison cannot tell a datagram that the network kept for 2^32 numbers from a new one;
`KcpRun.StaleRun` is a run of the two programs in which the server receives more than was sent, for that reason alone.
Hence `FreshRun`: a delivered segment is not older than half the number space, less the window. `Serial.ImageDiffExact`
and `Delivery.WindowVerdict` say exactly when the comparisons agree, and `Delivery.ShortIsFresh` that runs of up to
2^31 - 131070 fragments a side need no assumption at all. `Delivery.DeliveredInOrderShort`, `EndToEnd.FileOverKcpShort`,
`Progress.Progress` and the theorems of `NeverStuck` are stated in this form; other results say "a fresh run".

**Progress.** `Liveness` and `Progress` show what one round without loss achieves. `Polls` and `NeverStuck` show that
the program is never stuck: from every state of a short run some further calls of `kcp_recv` on both sides, each one
`ikcp_update`, at most one datagram and one `ikcp_recv`, bring across everything that was accepted, also when the peer
had advertised a window of zero and only a probe reopens it.

**Both sides.** Results about runs are stated for data from the first endpoint to the second. `System.RunMirror` and
`Refinement.FreshMirror` exchange the two sides of any run, so each of them holds in the other direction;
`KcpCalls.SecondSide` does the same for the calls of `kcp_send` and `kcp_recv`.

**Transfer.** `Headers` (byte order of either machine), `Tcp` (framing under short, interrupted and failing transfers),
`Transfer` (chunk loop and receive loop), `KcpLink` and `KcpCalls` (programs calling `kcp_send` and `kcp_recv`), and
`EndToEnd`, which composes them to the two theorems about files. `NeverStuck.TransferNeverStuck` completes any transfer
begun over KCP, and `NeverStuck.SomeKcpTransfer` builds one for every file, so that the conditions of these theorems are
seen to be met. `Exchange` follows one frame and its acknowledgement member by member, for `KcpRun`.

Assumed throughout: one `ikcpcb` is driven by one thread at a time; buffers are not null and allocation succeeds; mtu,
windows, interval and mode are set before traffic, with `rcv_wnd <= 65535` (the advertised window has 16 bits) and
`mtu <= 65535`; both sides use the same `conv` and a fixed peer address. Any resend limit of `ikcp_nodelay` that fits an
int is admitted; only the rows about cwnd and incr ask for `fastresend <= 32767`.

Every lemma switches Dafny's automatic induction off, so each induction is written in its body.

## Model

| member | source | states |
|---|---|---|
| Serial.ImageDiffExact | src/protocols/ikcp.c:136-139 | the 32-bit comparison of two numbers agrees with their true difference if and only if they are within half the number space |
| Serial.Compare | src/protocols/ikcp.c:136-139 | for numbers less than half the space ahead of a common base, the sign of `_itimediff` orders them as their distances do, and zero means equal |
| Types.ConfigCallsOk | src/protocols/ikcp.c:1253-1290 | `ikcp_nodelay` and `ikcp_wndsize` keep a valid configuration valid, and `kcp_init` gets nodelay 1, interval 10, resend 2, no cwnd, windows of 128, mss 1376 |
| Wire.ParseDatagram | src/protocols/ikcp.c:768-787 | decoding the bytes of a datagram gives back its segments, all header fields and payloads, with result 0 |
| Wire.PackOk | src/protocols/ikcp.c:1090-1121 | packing neither splits nor loses nor reorders a segment; no datagram is empty or exceeds the mtu |
| Wire.PackParse | src/protocols/ikcp.c:963-1019 | packing, encoding and decoding any list of segments gives back the list |
| Wire.PackTight | src/protocols/ikcp.c:1090-1121 | packing is greedy: no datagram has room for the first segment of the next |
| Wire.ParseExact | src/protocols/ikcp.c:756-793 | any bytes are the encodings of the segments `ikcp_input` processes, in order, and a rest that says why it stops: 0 for less than a header (but -1 if the datagram itself is shorter), -1 for another conv, -2 for a length that the bytes do not hold, -3 for an unknown command, in this order |
| Packers.Packer.constructor | src/protocols/ikcp.c:257-261 | the buffer has room for three datagrams and starts empty |
| Packers.Packer.Append | src/protocols/ikcp.c:54-106 | the bytes are appended at ptr and ptr moves behind them; what stood before is unchanged |
| Packers.Packer.EncodeHeader | src/protocols/ikcp.c:913-924 | exactly the 24 header bytes are appended at ptr, members truncated to their width |
| Packers.Packer.Output | src/protocols/ikcp.c:204-213 | the bytes before ptr go out as one datagram, none if there are none |
| Packers.Packer.Put | src/protocols/ikcp.c:1096-1109 | a segment that would exceed the mtu closes the datagram first; the buffer always holds the encoding of the segments packed since |
| Packers.Packer.Finish | src/protocols/ikcp.c:1117-1121 | what remains is sent |
| AckLists.NextBlock | src/protocols/ikcp.c:653-653 | the new capacity is a power of two, at least 8 and at least what is needed, and less than twice that |
| AckLists.AckList.Grow | src/protocols/ikcp.c:649-672 | growing keeps every (sn, ts) in order, in a block large enough whose size is a power of two |
| AckLists.AckList.Push | src/protocols/ikcp.c:644-678 | the pair is appended to the list, everything pushed before stays |
| AckLists.AckList.Get | src/protocols/ikcp.c:680-684 | the p-th pair pushed |
| AckLists.AckList.Clear | src/protocols/ikcp.c:975-975 | the list is empty, the block is kept |
| Rings.EmptyRing | include/kcp/ikcp.h:183-183 | a head points to itself exactly when the represented list is empty |
| Rings.RingEnds | include/kcp/ikcp.h:162-183 | next visits the represented list in order from its first element, prev backwards from its last |
| Rings.Add | include/kcp/ikcp.h:165-167 | next and prev stay mutually inverse on one cycle, which now has the node behind the given stop |
| Rings.AddTail | include/kcp/ikcp.h:169-171 | the same, with the node at the end |
| Rings.Del | include/kcp/ikcp.h:175-178 | the same, with the node removed; it keeps null links |
| Rings.DelInit | include/kcp/ikcp.h:180-181 | the same, and the node is an empty ring of its own |
| Messages.FragmentOk | src/protocols/ikcp.c:518-541 | the fragments of a message concatenate to it, none is longer than mss, frg counts down to 0, and there is always one |
| Messages.SendMessage | src/protocols/ikcp.c:469-544 | message mode: accepted as a whole as one more message behind the queue, or rejected with the queue untouched, and rejected exactly when 127 fragments of mss bytes cannot hold it |
| Messages.MessageExact | src/protocols/ikcp.c:509-541 | accepted if and only if it has at most 127 * mss bytes; then every new fragment but the last has exactly mss bytes and the last is empty only for an empty message, so no fragment could be spared |
| Messages.SendStream | src/protocols/ikcp.c:478-505 | stream mode: exactly the first `code` bytes are appended to the queued bytes; a rejection leaves the queue alone |
| Messages.StreamExact | src/protocols/ikcp.c:478-541 | the last queued fragment is filled up to mss first; the rest goes into full fragments as above if it has at most 127 * mss bytes, and otherwise the answer is what the last fragment took, or -2 exactly if that was full |
| Messages.SendSmall | src/protocols/ikcp.c:518-541 | no queued fragment is ever longer than mss |
| Receive.InsertMembers | src/protocols/ikcp.c:702-720 | insertion into rcv_buf loses nothing and adds nothing but the new segment |
| Receive.InsertAscending | src/protocols/ikcp.c:702-720 | rcv_buf stays strictly increasing inside the window |
| Receive.InsertRepeat | src/protocols/ikcp.c:705-708 | a segment that is already buffered changes nothing |
| Receive.MoveReadyOk | src/protocols/ikcp.c:727-739 | moving segments to rcv_queue only shifts the boundary between queue and buffer, advances rcv_nxt by as many, and leaves nothing movable |
| Receive.ParseDataOk | src/protocols/ikcp.c:690-739 | any segment keeps the receive invariant, and nothing queued or acknowledged changes |
| Receive.PeekSizeIsMerged | src/protocols/ikcp.c:384-411 | a non-negative `ikcp_peeksize` is the number of bytes the merge loop copies, for any queue contents, so the assertion in `ikcp_recv` holds |
| Receive.RecvOk | src/protocols/ikcp.c:358-435 | `ikcp_recv` with any length keeps the receive invariant |
| Receive.RecvLaw | src/protocols/ikcp.c:358-435 | the answer is -1, -2, -3 or the size exactly for nothing there, a message not whole, a buffer too small for the fragments up to the first with frg 0, or none of these; that message is returned, and leaves the queue unless the call is a peek; a failure changes nothing; the peer is to be told exactly when a shut window opens |
| Transmit.AckUnaOk | src/protocols/ikcp.c:600-614 | any una keeps snd_buf ordered in [snd_una, snd_nxt) with snd_una at its head, and never moves snd_una back |
| Transmit.AckOneOk | src/protocols/ikcp.c:578-598 | the same for any single acknowledgement |
| Transmit.RemoveSnOne | src/protocols/ikcp.c:585-597 | one acknowledgement removes at most the segment with that number, and nothing else |
| Transmit.ParseAckExact | src/protocols/ikcp.c:578-598 | exactly the segment with the acknowledged number leaves snd_buf, if that is in [snd_una, snd_nxt) |
| Transmit.ParseUnaSuffix | src/protocols/ikcp.c:603-613 | una removes a front part of snd_buf: every segment before it, none from it on |
| Transmit.SkipSame | src/protocols/ikcp.c:616-638 | counting skipped acknowledgements changes nothing but fastack |
| Transmit.SkipExact | src/protocols/ikcp.c:616-638 | a segment is counted once if and only if its number is before the acknowledged one and its time not later |
| Transmit.FillOk | src/protocols/ikcp.c:1027-1049 | moving fragments to snd_buf numbers them consecutively and keeps at most 65535 in flight |
| Transmit.FillExtent | src/protocols/ikcp.c:1027-1049 | numbering stops with cwnd in flight or the queue empty, never before, and never beyond |
| Timers.UpdateAckOk | src/protocols/ikcp.c:550-565 | every sample leaves rx_rto in [rx_minrto, 60000] |
| Timers.SampleBand | src/protocols/ikcp.c:550-565 | samples in [lo, hi], hi < 2^28, keep rx_srtt in [lo, hi] and rx_rttval at most max(hi/2, hi-lo), without leaving a 32-bit int |
| Timers.EstimateBand | src/protocols/ikcp.c:550-565 | the same for every list of samples from a fresh estimator |
| Timers.SampleLaw | src/protocols/ikcp.c:550-565 | one sample moves rx_srtt an eighth of the way to it and rx_rttval a quarter of the way to its distance, each rounded down by less than one; the first sets them to itself and half of itself |
| Timers.EstimateIsMean | src/protocols/ikcp.c:550-565 | after any positive samples rx_srtt is less than 8 below their exact exponentially weighted mean, and never above: rounding does not add up |
| Timers.TouchRto | src/protocols/ikcp.c:1065-1077 | with nodelay on, every branch of a flush keeps the rto of a segment within the bound for its number of transmissions |
| Timers.RtoBoundedPow | src/protocols/ikcp.c:1111-1113 | that bound is rto * 2^(xmit-1) <= 60000 * 3^(xmit-1), inside an int up to the dead-link count of 20 |
| Timers.TimeoutExact | src/protocols/ikcp.c:1065-1065 | with such an rto the wrapping timeout test fires exactly when true time reaches sent + rto |
| Congestion.GrowOk | src/protocols/ikcp.c:889-897 | congestion avoidance raises cwnd by 0 to 2, keeps (cwnd-1)*mss < incr < (cwnd+1)*mss, and mss*mss, (cwnd+1)*mss and incr+mss-1 stay below 2^32 |
| Congestion.OnAckOk | src/protocols/ikcp.c:882-904 | an acknowledgement never lowers cwnd, raises it by at most 2, and never past the peer's window |
| Congestion.OnAckLaw | src/protocols/ikcp.c:882-904 | one segment more in slow start; behind it incr grows by mss^2/incr + mss/16 and cwnd to the least whole number of segments that holds it once the next is reached; both stop at the peer's window |
| Congestion.AfterFlushOk | src/protocols/ikcp.c:1123-1144 | with fastresend up to 32767 losses and fast resends keep the relation of cwnd and incr, ssthresh >= 2 and cwnd >= 1, without overflow |
| Congestion.AfterFlushLaw | src/protocols/ikcp.c:1123-1144 | a loss sets cwnd 1 and ssthresh to half the window; a fast resend without one sets ssthresh to half of what is in flight and cwnd resent above it; otherwise both stay, with cwnd at least 1 |
| Congestion.FastResendExact | src/protocols/ikcp.c:1123-1134 | with any resend limit a fast resend keeps cwnd and incr together if and only if (max(inflight/2, 2) + resent) * mss stays below 2^32 |
| Endpoint.CreateOk | src/protocols/ikcp.c:234-295 | a new control block satisfies the invariant |
| Endpoint.ProcessOk | src/protocols/ikcp.c:795-872 | one segment of any content keeps it |
| Endpoint.InputOk | src/protocols/ikcp.c:756-907 | so does `ikcp_input` for any list of segments and any result |
| Endpoint.BytesOk | src/protocols/ikcp.c:756-907 | and for any bytes at all |
| Endpoint.FlushOk | src/protocols/ikcp.c:938-1145 | so does `ikcp_flush` |
| Endpoint.UpdateOk | src/protocols/ikcp.c:1153-1178 | so does `ikcp_update` at any time |
| Endpoint.SendOk | src/protocols/ikcp.c:469-544 | so does `ikcp_send` of anything |
| Endpoint.ReceivedOk | src/protocols/ikcp.c:358-435 | so does `ikcp_recv` with any length |
| Calls.AlwaysBounded | src/protocols/ikcp.c:567-614 | after any calls with any arguments and input bytes: snd_buf strictly increasing in [snd_una, snd_nxt) with its head at snd_una, at most 65535 in flight; rcv_buf increasing in the window, rcv_queue consecutive up to rcv_nxt-1, both at most rcv_wnd; rx_rto in range; with fastresend up to 32767 cwnd and incr agree and ssthresh >= 2 |
| Calls.InputCwnd | src/protocols/ikcp.c:878-904 | with fastresend up to 32767 one `ikcp_input` of any bytes never lowers cwnd and raises it by at most 2 |
| Calls.RtoAlways | src/protocols/ikcp.c:1059-1088 | after any calls, with nodelay on, every segment sent at most 20 times has rto * 2^(xmit-1) <= 60000 * 3^(xmit-1), and rto < 2^31 |
| Calls.TimersExact | src/protocols/ikcp.c:1065-1065 | so in every such state the timeout test on a segment sent at true time `sent` fires exactly from sent + rto on |
| Calls.FlushSettles | src/protocols/ikcp.c:1056-1088 | after any calls, with nodelay and nocwnd on and no segment at the dead-link count: a third flush at the same time changes and emits nothing, and a second emits nothing if and only if no segment is both due and skipped often enough |
| Calls.ClockAlone | src/protocols/ikcp.c:1153-1178 | after any calls the clock members and the number of flushes `ikcp_update` made are those of its calls alone: `ikcp_input`, `ikcp_send`, `ikcp_recv` and `ikcp_flush` in between change neither |
| Calls.FlushRateAlways | src/protocols/ikcp.c:1153-1178 | so after any calls whose updates see a monotone clock ts_flush is ahead of it by 1 to interval, and the updates flushed at most (T-T0)/interval + 1 times |
| Calls.RttIsEstimate | src/protocols/ikcp.c:796-808 | after any calls rx_srtt, rx_rttval and rx_rto are the estimator folded over the round-trip samples of the datagrams read so far, in order |
| Calls.SamplesAlways | src/protocols/ikcp.c:550-565 | so if these lie in [lo, hi], hi < 2^28: rx_srtt in [lo, hi] from the first on, rx_rttval at most max(hi/2, hi-lo), rx_rto in [rx_minrto, 60000] |
| CallLaws.SampleAlways | src/protocols/ikcp.c:800-805 | after any calls an `ikcp_input` that gives one positive sample moves the estimate by Timers.SampleLaw |
| CallLaws.MeanAlways | src/protocols/ikcp.c:550-565 | after any calls rx_srtt is less than 8 below the weighted mean of all samples so far |
| CallLaws.WindowsAlways | src/protocols/ikcp.c:1023-1049 | after any calls an `ikcp_update` that numbers fragments stays within snd_wnd, the window in the last segment read and the congestion window, and fills one of them if it leaves any |
| CallLaws.InFlightAlways | src/protocols/ikcp.c:1023-1049 | so at most min(snd_wnd, the largest window ever read) are in flight |
| CallLaws.GrowsAlways | src/protocols/ikcp.c:1069-1077 | after any calls with nodelay on: the growth of the timeout over n timeouts in a row |
| KcpClass.Kcp.constructor | src/protocols/ikcp.c:234-295 | the control block of `ikcp_create` with its configuration |
| KcpClass.Kcp.UpdateAck | src/protocols/ikcp.c:550-565 | the estimator of the model, on the three members; its law is Timers.SampleLaw |
| KcpClass.Kcp.ShrinkBuf | src/protocols/ikcp.c:567-575 | snd_una is the head of snd_buf, or snd_nxt |
| KcpClass.Kcp.ParseAck | src/protocols/ikcp.c:578-598 | the loop removes what the model removes, and the counter follows |
| KcpClass.Kcp.ParseUna | src/protocols/ikcp.c:600-614 | the same for una |
| KcpClass.Kcp.ParseFastack | src/protocols/ikcp.c:616-638 | the loop counts what the model counts (IKCP_FASTACK_CONSERVE is defined) |
| KcpClass.Kcp.MoveAvailable | src/protocols/ikcp.c:413-425 | the loop moves what the model moves, both counters and rcv_nxt follow |
| KcpClass.Kcp.InsertSegment | src/protocols/ikcp.c:702-720 | the backward search and insertion is the model's insertion |
| KcpClass.Kcp.ParseData | src/protocols/ikcp.c:690-750 | window test, insertion and move, as in the model |
| KcpClass.Kcp.Peeksize | src/protocols/ikcp.c:441-463 | the size of the next message, or -1 |
| KcpClass.Kcp.MergeFragments | src/protocols/ikcp.c:383-409 | the merge loop returns the first message; it is removed unless the call is a peek |
| KcpClass.Kcp.Recv | src/protocols/ikcp.c:358-435 | result, bytes and the whole new state are those of the model |
| KcpClass.Kcp.Send | src/protocols/ikcp.c:469-544 | result and the whole new state are those of the model, in bytes Messages.MessageExact and Messages.StreamExact |
| KcpClass.Kcp.ProcessSegment | src/protocols/ikcp.c:795-872 | one turn of the loop of `ikcp_input` |
| KcpClass.Kcp.CountAck | src/protocols/ikcp.c:883-903 | the congestion window after an acknowledgement |
| KcpClass.Kcp.Input | src/protocols/ikcp.c:756-907 | for any bytes: decode loop, result code and whole new state are those of the model, described by Wire.ParseExact and InputLaws, and the invariant is kept |
| KcpClass.Kcp.FlushAcks | src/protocols/ikcp.c:963-975 | one segment is packed per pending acknowledgement, in order, and the list is emptied |
| KcpClass.Kcp.TickProbe | src/protocols/ikcp.c:977-997 | the zero-window probe timer |
| KcpClass.Kcp.FlushProbes | src/protocols/ikcp.c:999-1021 | the probes asked for are packed and the flags cleared |
| KcpClass.Kcp.FillWindow | src/protocols/ikcp.c:1027-1049 | the loop moves what the model moves |
| KcpClass.Kcp.Consider | src/protocols/ikcp.c:1056-1092 | first send, timeout, fast resend or nothing, and the segment afterwards, described by FlushLaws.FlushSegments |
| KcpClass.Kcp.FlushData | src/protocols/ikcp.c:1055-1115 | the loop sends what the model sends, and its counts of losses, resends, timeouts and dead links are the model's |
| KcpClass.Kcp.EndFlush | src/protocols/ikcp.c:1123-1144 | the congestion window after a flush |
| KcpClass.Kcp.Flush | src/protocols/ikcp.c:938-1145 | the whole new state is that of the model, described by FlushLaws, the output callback got exactly the bytes of the model's datagrams, and the invariant is kept |
| KcpClass.Kcp.Update | src/protocols/ikcp.c:1153-1178 | the same for `ikcp_update` |
| KcpClass.Kcp.Check | src/protocols/ikcp.c:1190-1226 | the loop with its early return computes the time of the model |
| KcpClass.Kcp.Waitsnd | src/protocols/ikcp.c:1292-1295 | the two counters add up to the segments that are waiting |
| Safety.RunInv | src/protocols/ikcp.c:756-907 | over unbounded numbers, every run of two endpoints keeps the link between them: numbers stand for the same fragment on both sides and in every datagram ever sent, acknowledgements only speak of what is held, nothing numbered is missing on both sides |
| Safety.StepKeeps | src/protocols/ikcp.c:938-1115 | every single event keeps it |
| Safety.Delivered | src/protocols/ikcp.c:358-544 | received messages are a prefix of accepted ones, boundaries and bytes; in stream mode the bytes are |
| Safety.NothingWaiting | src/protocols/ikcp.c:1292-1295 | with `ikcp_waitsnd` zero the receiver holds every fragment |
| Refinement.RunImage | src/protocols/ikcp.c:690-907 | a 32-bit run with fresh deliveries is, state by state and datagram by datagram, the image of the unbounded run |
| Refinement.SenderAhead | src/protocols/ikcp.c:1023-1049 | snd_nxt is never more than the two windows ahead of the peer's rcv_nxt |
| FlowControl.NothingRefused | src/protocols/ikcp.c:696-700 | in every run over unbounded numbers a receiver with room in its queue refuses nothing ever sent to it for being too far ahead |
| FlowControl.FlowControl | src/protocols/ikcp.c:1023-1049 | in every state a fresh run of the program reaches, no more is in flight than the own window and the peer's rcv_wnd, and while the peer has room snd_nxt is at most one rcv_wnd beyond its rcv_nxt |
| Refinement.FreshMirror | src/protocols/ikcp.c:690-907 | freshness of a run does not depend on which side is called the first |
| System.RunMirror | src/protocols/ikcp.c:690-907 | exchanging the sides of a run exchanges the sides of its result |
| Delivery.DeliveredInOrder | src/protocols/ikcp.c:358-544 | in every fresh run of the program over a network that loses, duplicates and reorders: each side receives a prefix of what the other sent, messages or, in stream mode, bytes |
| Delivery.DeliveredInOrderShort | src/protocols/ikcp.c:690-907 | the same with no assumption on the network, up to 2^31 - 131070 fragments a side |
| Delivery.ShortIsFresh | src/protocols/ikcp.c:136-139 | such runs are fresh |
| Delivery.NothingLost | src/protocols/ikcp.c:795-852 | in every state a fresh run reaches the fragments below some number are exactly the whole messages that were delivered, and each one from there on is in the sender's snd_buf or held by the receiver |
| Delivery.WaitSndZero | src/protocols/ikcp.c:1292-1295 | in every state a fresh run reaches `ikcp_waitsnd == 0` implies that the peer delivered whole messages and holds every fragment behind them, to the end of the last accepted message |
| Delivery.WaitSndZeroGot | src/protocols/ikcp.c:358-435 | and once `ikcp_recv`, with room for whatever was accepted, fails there, everything accepted has been received: the messages, or in stream mode the bytes; again for fresh runs |
| Liveness.NeverTooSmall | src/protocols/ikcp.c:377-378 | a buffer with room for every accepted message, or in stream mode for mss bytes, or in any case for 127 * mss bytes, is never too small |
| Delivery.WindowVerdict | src/protocols/ikcp.c:696-700 | the window test on 32-bit numbers is right exactly unless the segment is outside the window by true number and inside it modulo 2^32 |
| Delivery.StaleDuplicate | src/protocols/ikcp.c:829-853 | a concrete duplicate 2^32 numbers old is taken for new data |
| KcpRun.StaleRun | src/protocols/ikcp.c:829-853 | freshness is needed: for every frame of one fragment there is a run of the two programs of `kcp_impl.c` in which 2^32 such frames are exchanged, the first datagram comes once more, and the server has received more messages than the client sent |
| Delivery.FlushDecodes | src/protocols/ikcp.c:913-924 | in every state a fresh run reaches the datagrams of the next flush fit the mtu and decode to exactly what was emitted |
| Delivery.WindowOpens | src/protocols/ikcp.c:926-932 | in every state a fresh run reaches, calling `ikcp_recv` until it fails, with room for whatever was accepted, ends with a non-zero window to advertise |
| Progress.Progress | src/protocols/ikcp.c:1056-1121 | in every run of up to 2^31 - 131070 fragments a side, whenever the oldest segment is due and the peer has room: flush, in-order delivery of exactly its datagrams, flush of the peer, delivery back strictly advance the program's snd_una; no assumption of freshness |
| Progress.RoundAdvances | src/protocols/ikcp.c:1056-1121 | the same for runs of any length across wrap-arounds, if no acknowledgement waiting to be sent is half the number space old: then all deliveries of the round are fresh |
| Progress.RoundFresh | src/protocols/ikcp.c:829-853 | every delivery of such a round is fresh when it happens |
| Liveness.FullQueueIsWhole | src/protocols/ikcp.c:441-463 | a full receive queue starts with a complete message |
| Liveness.FullQueueDelivers | src/protocols/ikcp.c:441-463 | so `ikcp_recv` with room for whatever was accepted succeeds on it |
| Liveness.DrainOpensWindow | src/protocols/ikcp.c:414-432 | draining with room for whatever was accepted terminates, keeps the link and ends with room to advertise |
| Liveness.RoundProgress | src/protocols/ikcp.c:796-804 | one loss-free round from any reachable state with a due oldest segment strictly advances snd_una |
| Polls.Advance | src/protocols/ikcp.c:977-1021 | over unbounded numbers, from every state with something unacknowledged, zero window or not, some polls (update, at most one datagram, receive) strictly advance snd_una |
| Polls.GetsAcross | src/protocols/kcp_impl.c:106-128 | so some polls get everything across: nothing waits at the sender and the receiver can take nothing more |
| NeverStuck.NextAck | src/protocols/kcp_impl.c:106-188 | in every run of the program with at most 2^31 - 131070 fragments made on either side, whenever something waits at the sender, some polls of both sides strictly advance its 32-bit snd_una, with no freshness assumed |
| NeverStuck.NeverStuck | src/protocols/kcp_impl.c:106-188 | from every state of the program with at most 2^31 - 131070 fragments made on either side, whatever the network did: some polls of both sides lead to `ikcp_waitsnd == 0`, everything accepted received and nothing more to receive, with no freshness assumed |
| NeverStuck.TransferNeverStuck | src/apps/client_main.c:295-329 | whatever the two programs called so far during a transfer that nothing stops: some further calls of `kcp_send` and `kcp_recv` hand over the rest of the frames, and transfer_done is set and the file whole at a server with room on its disk, within as many fragments |
| Schedule.FlushRate | src/protocols/ikcp.c:1153-1178 | for any calls of `ikcp_update` with a monotone clock, ts_flush stays ahead by at most interval, and there are at most (T-T0)/interval + 1 flushes |
| Schedule.TickLaw | src/protocols/ikcp.c:1153-1178 | a call flushes exactly when ts_flush has come or the clock jumped by ten seconds; ts_flush keeps its beat unless it is late by an interval or more, and then restarts from the clock |
| Schedule.CheckBounds | src/protocols/ikcp.c:1190-1226 | the delay is at most the interval, the time to ts_flush and the time to every pending resendts |
| Schedule.CheckAttained | src/protocols/ikcp.c:1190-1226 | and it equals one of them, so it is exactly the smallest |
| Schedule.CheckSound | src/protocols/ikcp.c:1190-1226 | any `ikcp_update` calls before the returned time change only `current` and emit nothing |
| Schedule.CheckNow | src/protocols/ikcp.c:1200-1219 | it returns `current` if and only if a flush or a retransmission is due or the clock jumped |
| Schedule.FlushFixpoint | src/protocols/ikcp.c:1056-1088 | with nocwnd, xmit below 2^32 - 3 and the rto of every segment in (0, 2^31) after the first flush, a third flush at the same time emits nothing and changes nothing |
| Schedule.SecondFlush | src/protocols/ikcp.c:1065-1088 | under these conditions, with xmit below 2^31 - 3, a second flush at the same time emits nothing if and only if no segment in flight is unsent or due, and has fastack >= resent, and is within fastlimit |
| Schedule.OneFlushIsNotEnough | src/protocols/ikcp.c:1065-1088 | a concrete valid control block that two flushes at the same time both emit from |
| Schedule.ProbeLaw | src/protocols/ikcp.c:977-997 | the probe timer stops for any window, starts at 7 seconds, fires when it has passed, and is then half as long again, up to two minutes |
| FlushLaws.FlushWindow | src/protocols/ikcp.c:1023-1049 | a flush that numbers fragments ends with no more in flight than snd_wnd, rmt_wnd and, without nocwnd, cwnd; one that leaves any has filled one of these; it takes the front of the queue |
| FlushLaws.FlushSegments | src/protocols/ikcp.c:1056-1088 | every segment afterwards: first sent with rx_rto (an eighth more to wait with nodelay 0), timed out with a timeout longer by half of it, half of rx_rto or at least the whole of it for nodelay 1, 2 and 0, overtaken with its count cleared, or untouched; due one timeout after it was sent |
| FlushLaws.FlushData | src/protocols/ikcp.c:1055-1115 | data is sent for exactly the segments that are new, not sent yet, due, or skipped often enough within fastlimit |
| FlushLaws.FlushOrder | src/protocols/ikcp.c:1055-1115 | in the order of their numbers, none twice |
| FlushLaws.FlushSignals | src/protocols/ikcp.c:963-1019 | one acknowledgement for each pending one, in order, with its number and its time; a probe if and only if one is due; the window if and only if it is to be told; every segment carries the room in rcv_queue and rcv_nxt |
| FlushLaws.FlushProbe | src/protocols/ikcp.c:977-1021 | nothing pending, asked or to be told is left, and the probe timer goes on by its law |
| FlushLaws.WindowTold | src/protocols/ikcp.c:427-432 | after an `ikcp_recv` that opens a shut window the next flush tells the peer, with room in every segment |
| FlushLaws.FlushCongestion | src/protocols/ikcp.c:1123-1144 | the congestion window behind a flush: taken down if and only if a segment in flight timed out, halved if none did and one was overtaken, otherwise unchanged |
| FlushLaws.FlushCounts | src/protocols/ikcp.c:1090-1114 | xmit grows by the number of timeouts; state is set exactly when a segment is sent for the dead_link-th time |
| FlushLaws.TimeoutsGrow | src/protocols/ikcp.c:1069-1077 | n timeouts in a row, each found by `ikcp_update`: (rto'-1) * 2^n >= 3^n * (rto-1) with nodelay 1, at least n halves of rx_rto more from 2 on, with the upper bound kept, up to the dead-link count |
| InputLaws.InputSegments | src/protocols/ikcp.c:578-638 | which segments are left: exactly those no segment of the datagram acknowledged, by una or number; each is counted once if and only if the result is 0 and the chosen acknowledgement is of a number still inside the window, later than its own, with a time not earlier |
| InputLaws.ChosenUnique | src/protocols/ikcp.c:806-822 | the chosen acknowledgement is unique: no later one beats it by number and time, and it is the first or beats the one chosen before it |
| InputLaws.ChosenEnds | src/protocols/ikcp.c:806-822 | it is the first of those with equal times, and the last of those with rising numbers and times |
| InputLaws.SkipsAddUp | src/protocols/ikcp.c:616-638 | a segment skipped by n datagrams and still in flight has been counted n times |
| InputLaws.FastRetransmit | src/protocols/ikcp.c:1079-1088 | fast retransmit: a sent segment within fastlimit that as many datagrams skipped as resend asks for, and that is still in flight, is sent by the next flush; if it is not due its count is cleared and its timeout kept |
| InputLaws.InputWindow | src/protocols/ikcp.c:795-858 | rmt_wnd is the window in the last segment; the window is to be told exactly if a probe was read, or it was before |
| InputLaws.ProbeAnswered | src/protocols/ikcp.c:854-858 | the flush behind a probe tells the window |
| InputLaws.PushLaw | src/protocols/ikcp.c:829-853 | data below the end of the window is acknowledged with its own number and time, new or not; it is kept if and only if it is in the window and not there yet, and nothing is lost |
| InputLaws.InputCongestion | src/protocols/ikcp.c:882-904 | the congestion window changes if and only if snd_una moved and the datagram was well formed, and then by Congestion.OnAckLaw under the window just read |
| KcpContexts.KcpContext.constructor | src/protocols/kcp_impl.c:90-104 | a control block with the configuration of `kcp_init` |
| KcpContexts.KcpContext.UpdateLoop | src/protocols/kcp_impl.c:106-128 | one update at the truncated clock, then one datagram cut off at 1500 bytes |
| KcpContexts.KcpContext.Send | src/protocols/kcp_impl.c:150-169 | `ikcp_send`, an error without an update, or the update loop and the length |
| KcpContexts.KcpContext.Recv | src/protocols/kcp_impl.c:171-188 | the update loop, then `ikcp_recv` with every failure reported as 0 |
| KcpCalls.PlayBooks | src/protocols/kcp_impl.c:150-188 | whatever the two programs call, the system is in a reachable state, the accepted messages are those `kcp_send` accepted, and `kcp_recv` returned what was received |
| KcpCalls.SendIsKcpSend | src/protocols/kcp_impl.c:150-169 | the events of a call are `kcp_send` on the control block, answer included |
| KcpCalls.RecvIsKcpRecv | src/protocols/kcp_impl.c:171-188 | the same of `kcp_recv` |
| KcpCalls.SecondSide | src/protocols/kcp_impl.c:150-188 | calls of the second endpoint are calls of the first with the sides exchanged |
| KcpCalls.RunFits | src/protocols/kcp_impl.c:112-121 | with an mtu of at most 1500 no datagram of a fresh run is cut off by recvfrom |
| Headers.SwapReverses | include/common.h:49-59 | `omni_bswap64` mirrors the eight bytes |
| Headers.SwapTwice | include/common.h:49-59 | and undoes itself |
| Headers.NetworkOrder | include/common.h:61-68 | on either kind of machine the stored result of htonl and `omni_htonll` is the number with its highest byte first |
| Headers.HeaderOnWire | include/common.h:75-83 | the 16 bytes of a header do not depend on the machine that wrote them |
| Headers.HeaderRoundTrip | include/common.h:75-91 | what any machine encodes, any machine decodes |
| Headers.HeaderIsOnto | include/common.h:85-91 | every 16 bytes are the encoding of what they decode to |
| Tcp.ReadNExact | src/protocols/tcp_impl.c:173-195 | under any short, interrupted or failing reads: exactly the next n bytes, or all there are, or -1 only if a read failed |
| Tcp.WriteNExact | src/protocols/tcp_impl.c:197-215 | all bytes are written, or -1 and fewer than all |
| Tcp.SendExact | src/protocols/tcp_impl.c:250-286 | `tcp_send` wrote the whole frame and returns its length, or returns ERR_IO and wrote less than the frame |
| Tcp.RecvIsIdeal | src/protocols/tcp_impl.c:288-345 | `tcp_recv` under any reads is the reader of a stream that stands still, unless a read failed, and then it reports an error |
| Tcp.Framing | src/protocols/tcp_impl.c:288-345 | from a stream of frames cut off anywhere: the first k messages whole and in order, then a result that is no message; without failing reads k is the number of whole frames, followed by ERR_IO for a cut frame, then 0 for good; nothing is claimed of calls behind a failed read |
| Tcp.FailedReadShifts | src/protocols/tcp_impl.c:327-330 | why not: a concrete connection on which a call behind a failed read returns a message nobody sent |
| Tcp.FailedRecv | src/protocols/tcp_impl.c:288-345 | exactly when a failed `tcp_recv` leaves the stream at the start of a frame: if and only if it took no byte; it returns ERR_IO if and only if it took the whole header, so a retry behind ERR_IO is always out of step, and one behind -1 exactly if part of the header was taken |
| Tcp.SentFrames | src/protocols/tcp_impl.c:250-286 | a sender that stops at its first failure has written the frames of the accepted messages and less than all of the next |
| Tcp.SendToRecv | src/protocols/tcp_impl.c:250-345 | from `tcp_send` to `tcp_recv`: a prefix of the accepted messages, all of them if nothing is cut off and no read fails |
| Tcp.RecvOne | src/protocols/tcp_impl.c:302-330 | a message is returned if and only if it is not empty and fits: an empty one reads as closed, one that does not fit stays in the stream behind its header |
| TcpSockets.TcpContext.Read | src/protocols/tcp_impl.c:184-184 | one call of read: the next bytes into the buffer at off |
| TcpSockets.TcpContext.ReadN | src/protocols/tcp_impl.c:173-195 | the loop over a buffer returns what the model returns and puts those bytes into the buffer |
| TcpSockets.TcpContext.WriteN | src/protocols/tcp_impl.c:197-215 | the loop writes what the model writes |
| TcpSockets.TcpContext.Send | src/protocols/tcp_impl.c:250-286 | `tcp_send` of the model |
| TcpSockets.TcpContext.Recv | src/protocols/tcp_impl.c:288-345 | `tcp_recv` of the model, into the caller's buffer |
| Transfer.AppRoundTrip | src/apps/client_main.c:79-114 | a frame of `send_app_message` is taken apart by `decode_app_message` of any machine into its type, time and payload |
| Transfer.DecodeExact | src/apps/server_main.c:92-112 | `decode_app_message` accepts exactly the frames that `send_app_message` could have built |
| Transfer.SendFileUploads | src/apps/client_main.c:295-329 | whatever is read, sent, refused or stopped: the frames handed over carry a prefix of the file in chunks of 1 to chunk_size bytes, FILE_END only stands behind the whole file, and nothing follows a failed send |
| Transfer.SmoothUpload | src/apps/client_main.c:295-329 | if nothing stops the client the whole file and FILE_END are handed over, and total_sent is its size |
| Transfer.ServedIsPrefix | src/apps/server_main.c:114-181 | fed with such frames in order, whatever the disk takes, the file is a prefix of the client's, and all of it once transfer_done is set |
| Transfer.CompleteIsDone | src/apps/server_main.c:152-163 | fed with all of them and with room on the disk, transfer_done is set |
| Transfer.ServeExact | src/apps/server_main.c:123-181 | for anything the server is given: its loop runs exactly until an error, a closed TCP peer or a chunk the disk does not take as a whole, and transfer_done is set exactly if a FILE_END came before that |
| Transfer.UploadFits | src/apps/server_main.c:25-25 | every frame is at least a header, at most a header and a chunk, and fits the server's buffer |
| TransferPrograms.Client.Fread | src/apps/client_main.c:301-301 | the next bytes of the file are in the chunk buffer, or the end of the file is noted |
| TransferPrograms.Client.SendAppMessage | src/apps/client_main.c:79-114 | the frame of the model is handed over, and ERR_IO returned exactly for a different answer than its length |
| TransferPrograms.Client.Run | src/apps/client_main.c:295-329 | the loop and the FILE_END guard leave the state of the model |
| TransferPrograms.ServerRuntime.DecodeAppMessage | src/apps/server_main.c:92-112 | code, header and payload of the model |
| TransferPrograms.ServerRuntime.Turn | src/apps/server_main.c:125-180 | one turn of the receive loop |
| TransferPrograms.ServerRuntime.RecvThread | src/apps/server_main.c:114-181 | the receive loop leaves file, bytes_written, transfer_done and running of the model |
| EndToEnd.FileOverTcp | src/apps/client_main.c:295-329 | TCP, for every file, chunk size 1 to 65536, any transfers and any cut: the server's file is a prefix of the client's, and all of it once transfer_done is set |
| EndToEnd.FileOverTcpCompletes | src/apps/server_main.c:123-181 | and it is set if nothing stops the client, nothing is cut off, no read fails and the disk has room |
| EndToEnd.SomeTransfer | src/apps/client_main.c:295-329 | for every file, chunk size and pair of machines there is a run that meets these conditions and delivers the file |
| EndToEnd.FileOverKcp | src/apps/server_main.c:123-181 | KCP, for every file, chunk size, any calls at any times and any loss, duplication and reordering, provided that deliveries are fresh: the same prefix property |
| EndToEnd.FileOverKcpShort | src/apps/server_main.c:123-181 | the same with no assumption on the network, up to 2^31 - 131070 fragments a side |
| EndToEnd.FileOverKcpCompletes | src/apps/client_main.c:295-329 | with fresh deliveries and room on the disk, transfer_done is set as soon as the client handed over everything, its `ikcp_waitsnd` is zero and the server's `ikcp_recv` has nothing more to give |
| EndToEnd.ServerWindowOpens | src/apps/server_main.c:114-135 | in every state of a transfer with fresh deliveries, calling `kcp_recv` with the 65552 bytes of the server until nothing comes ends with a non-zero window to advertise |
| NeverStuck.SomeKcpTransfer | src/protocols/kcp_impl.c:150-188 | for every file, every chunk size from 1 to 65536 and every pair of machines there is a run over KCP that delivers the file, as long as the fragments of all frames number at most 2^31 - 131070 |
| EndToEnd.FramesAccepted | src/protocols/ikcp.c:509-516 | every frame needs at most 48 fragments, so `kcp_send` never turns one down |

## Left out

- Progress.Progress: one round flushes with `ikcp_flush`, which kcp_impl.c only reaches through `ikcp_update`, and needs a due head and an open window; polls through `ikcp_update` and zero windows are in NeverStuck.
- NeverStuck.NeverStuck: some continuation exists from every state; what a network must guarantee for it to happen, and in what time, is not modelled.
- Progress.RoundAdvances: assumes that no acknowledgement waiting to be sent is half the number space old by the time the peer has filled its window; freshness of the deliveries so far does not quite give this.
- NeverStuck.TransferNeverStuck: the client has the configuration of `kcp_init`, and all fragments together fit a short run.
- TcpSockets.TcpContext.Write: an endless sequence of writes that return 0 is not a finite run and not modelled.
- Timers.TouchRto: no bound with nodelay 0, where the rto doubles and passes 2^31.
- Timers.SampleBand: no claim for round-trip samples from 2^28 on, where the int arithmetic of the estimator can overflow.
- Timers.SampleLaw: speaks of the estimator on numbers; the statements stay within an int for samples below 2^28, as in Timers.SampleBand.
- InputLaws.InputSegments: exactly which segments are left is stated for datagrams whose una is not half the number space behind; for any other Transmit.ParseUnaSuffix holds.
- FlushLaws.FlushSegments: the law of a timeout is stated for timeouts below 2^30, beyond which the sum can wrap.
- Congestion.AfterFlushOk: with fastresend above 32767 the product in a fast resend can overflow, `Congestion.FastResendExact` says when; no invariant of cwnd and incr is claimed there.
- Calls.InputCwnd: the same restriction, since it starts from the relation of cwnd and incr.
- KcpClass.Kcp.Input: the check of a datagram against NULL, and lengths that do not fit an int, are outside the model.
- The class of the control block keeps the four queues as sequences; that linked rings act on such sequences is proved in Rings.
- The mtu, windows and modes are fixed per control block: no `ikcp_setmtu`, `ikcp_wndsize` or `ikcp_nodelay` during traffic, where shrinking breaks the invariants.
- IKCPSEG is split by the role a segment plays; members nobody reads in that role (conv, cmd, wnd, una of a queued segment) are dropped.
- Lengths are natural numbers: negative arguments of `ikcp_send` and messages of 2^31 bytes or more are not modelled, nor is a NULL buffer.
- Allocation failure and allocator hooks.
- Threads: the client drives one control block from two threads without a lock; the model assumes serialised calls.
- Sockets, bind, connect, accept, signals, command lines, terminal input and sleeping; what they do reaches the model as scripts, plans and events.
- Peer address learning and the choice of `conv`; a datagram with another `conv` is only part of the decode loop.
- Logging, statistics, `ikcp_log` and TCP_INFO: no effect on protocol state.
- `src/protocols/udp_impl.c`, `src/core/network.c` and `src/apps/relay_main.c`: thin wrappers without a delivery guarantee.
- The client's receive loop and the server's COMMAND messages: they only print and do not touch the transfer.
- uint64_t counters of bytes are unbounded numbers.
