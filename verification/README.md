# knet, modelled in Dafny

knet is a C++ network library. This project models the parts of it whose
correctness is hardest to see from the code, and proves what those parts are
for. `dafny verify dfyconfig.toml` checks everything.

**KCP, the reliable transport** (`include/kcp/ikcp.c`). `KcpModel` defines every
operation of a control block as a function on values, with the sequence
arithmetic as a parameter: `WRAP` is the source's circular 32-bit arithmetic,
`EXACT` is arithmetic on unbounded numbers. `KcpControlBlock` is the class whose
methods change the fields in place, loop by loop as the source does; each is
proved equal to the function on values. `KcpSystem` is two ends and a network
that loses, repeats and reorders datagrams: the network is the log of all
datagrams ever sent, and a delivery may pick any of them at any time, any number
of times, or never. The delivery proof is done on unbounded numbers
(`KcpLink`, `KcpSystem`) and carried over to the bytes of the 32-bit protocol by
a simulation (`KcpWrap`, `KcpDelivery`). The simulation needs that no datagram
outlives 2^31 sequence numbers (`KcpDelivery.RecentRun`);
`KcpDelivery.FewRunsAreRecent` gives a condition on the calls alone under which
this holds whatever the network does, and `KcpStale` says what a receiver does
with older data. `KcpRounds` and `KcpProgress` prove that no run gets stuck: some
updates, deliveries and reads always lead to a state in which all that was
accepted has been handed out at both ends. That holds for most window sizes, and
`KcpStuck` proves for which. The other theorems of KCP need no assumption on old
datagrams and hold for arbitrary input bytes: what both windows keep
(`KcpEndpoint`), when a number is sent again (`KcpResend`, and `KcpFast` where it
was passed over), what is acknowledged and told (`KcpAnswers`), how the congestion
window grows and is cut (`KcpGrowth`, `KcpCongestion`), the timers (`KcpTimer`,
`KcpRuns`), and which bytes are read and written (`KcpOctets`, `KcpPacking`).
These are said by what was sent, what came and when, not by the functions of the
model. Where an int of the source overflows, which
the language leaves undefined, the model wraps around.

**The ring buffer** (`include/utils/loop_buffer.hpp`), first as a class over an
array with free-running 32-bit counters, then as a system of interleaved steps
of one producer and one consumer.

**The HTTP parser** (`include/http/http_parser.hpp`): the body states, the
digits of lengths, and the URL splitter. `HttpBody` reads one byte at a time;
`HttpParser.BodyParser` jumps over runs of body bytes and hands out slices, and
is proved to report the same. `HttpChunks` proves which texts are accepted;
`HttpRfc` proves that those of section 4.1 of RFC 7230 are among them, and tells
them from the others. `UrlSplit` says what the fields of a URL are without the
loops, `UrlRefine` how the second pass refines the first, and `UrlFields` what
the result is like. `UrlGrammar` has a grammar of URLs and proves that exactly its
texts are accepted, from one such theorem for each pass (`UrlOuter`, `UrlHost`).
`UrlStored` says what becomes of the result in 16-bit numbers, and `UrlParser` has
the loops.

**WebSocket** (`include/websocket/`): the handshake's unrolled SHA-1 with
rotating register indices and a circular schedule, base64, and frames. `WsOctets`
says what a frame is octet by octet, `WsBase64` what base64 text means.

**URL text** (`include/http/http_url.hpp`): percent coding, queries, paths.
`UrlCoding` says which texts are written and which are read.
`UrlDots` sets the normalised path beside the routine of section 5.2.4 of
RFC 3986.

Where the code does not do what it is for, the code is followed, and the exact
condition is proved:

- size digits of chunks: every byte from 0x80 reads as the digit zero, because
  the table lists only 128 entries, and extensions are not looked at
  (`HttpRfc.AcceptedIsRfc`);
- get_message_length adds in 64 bits, so that frames pass as whole that are not
  (`WsFrame.OverrunExactly`), and a whole frame of fewer than 16 bytes is not
  reported before more bytes come (`WsFrame.PackageExactly`);
- the frame writer's header is too short for what is written into it when the
  payload has exactly 65535 bytes (`WsFrame.MakeHeader`);
- slices of URLs that do not fit 16 bits are stored with other numbers, and a
  host or a port is then read from another place (`UrlStored.StoredIsSplit`,
  `UrlStored.StoredAgrees`, `UrlStored.LongPathWraps`);
- a receive window goes into 16 bits of the header, so that an end whose window
  is a multiple of 65536, or up to 126 more, can tell a closed window although it
  waits for data, and its peer waits for ever (`KcpStuck.ServedByAll`);
- the sums that smooth the round-trip time overflow an int from samples of 2^28
  on (`KcpRuns.TimesWrap`, `KcpRuns.CalmIsNeeded`);
- a normalised path loses its empty segments, and the slash behind a final ".."
  (`UrlDots.NormalIsRfc`, `UrlDots.AgreesWithRfc`);
- the three percent encoders index their table of digits with a shifted signed
  character (`include/http/http_url.hpp:416-424`), which is negative from 0x80
  on: they are modelled on ASCII text, the only text for which they read inside
  the table (`UrlText.EncodeText`, `UrlText.PrintQuery`).

## Model

| member | source | states |
|---|---|---|
| KcpDelivery.InOrderDelivery | include/kcp/ikcp.c:329-409 | over any interleaving of calls at two ends, on the bytes of the 32-bit protocol, with datagrams lost, repeated and reordered, what ikcp_recv returned at one end is a prefix of what ikcp_send accepted at the other, message by message, in both directions |
| KcpDelivery.NothingForgotten | include/kcp/ikcp.c:537-584 | in both directions, every number issued is still with the sender or already with the receiver; every queued or travelling acknowledgement and every una names only data the receiver has |
| KcpDelivery.NeverStuck | include/kcp/ikcp.c:415-437 | in every run, at either end, a receive queue of 127 segments or more starts with a complete message, which is the next one accepted at the other end, and the peeked size is its length |
| KcpResend.SentAgain | include/kcp/ikcp.c:1026-1051 | in every run, whatever bytes arrive: a number sent at time t and then not acknowledged nor sent again by the calls in between is sent by a flush at time u if and only if u is at least t plus its wait, or it was passed over often enough and not sent too often for that |
| KcpResend.FirstAgain | include/kcp/ikcp.c:1029-1034 | for the first sending that wait is the timeout of the connection and an eighth of it, or the timeout alone without delay |
| KcpResend.FirstWait | include/kcp/ikcp.c:1029-1034 | a number is sent at once when it is given out, and the wait that is set then is that one |
| KcpResend.NextWait | include/kcp/ikcp.c:1035-1056 | a timeout lengthens the wait by the timeout of the connection, or without delay by half of it; a segment sent because it was passed over keeps its wait, and is counted from zero again |
| KcpResend.SendsExactly | include/kcp/ikcp.c:1026-1062 | in every run a flush sends a number in flight if and only if it was never sent, is overdue by the deadline machine, or was passed over often enough; numbers given out are sent at once; and no other call sends any |
| KcpResend.DeadlinesHold | include/kcp/ikcp.c:1029-1056 | the count of sendings, the deadline and the wait of each segment in flight are those of a machine that sees only when its number was sent |
| KcpResend.DeadExactly | include/kcp/ikcp.c:1079-1081 | a flush gives the link up if and only if it sends a segment for as many times as the setting says, or it was given up before |
| KcpFast.FlushSendsExactly | include/kcp/ikcp.c:1045-1056 | the same, with the times passed over counted from the datagrams that came: a number is sent if it was passed over as often as the fast resend setting says, and has not been sent more often than the fast limit |
| KcpFast.SkipsHold | include/kcp/ikcp.c:586-608 | in every run the count of a segment in flight is the number of datagrams, since it was given out or last sent for that reason, that acknowledge a later number in flight before its own |
| KcpFast.DatagramCounts | include/kcp/ikcp.c:848-850 | after a datagram a segment still in flight is as it was, but for one more count if it was passed over |
| KcpFast.LargestAcked | include/kcp/ikcp.c:781-793 | the number that a datagram counts by is the largest one it acknowledges, from snd_una upwards |
| KcpAcks.FastAckCounts | include/kcp/ikcp.c:586-608 | for a number in flight, the segment at each place gets one more count, in 32 bits, if and only if its number is before that one; nothing else changes |
| KcpAcks.FastAckIgnores | include/kcp/ikcp.c:590-591 | other numbers change nothing |
| KcpAcks.InFlightIsFlying | include/kcp/ikcp.c:552-553 | the two circular comparisons hold exactly for the numbers from snd_una up to snd_nxt |
| KcpAcks.AckRemoves | include/kcp/ikcp.c:548-568 | an acknowledgement removes every segment with its number and no other, and snd_una becomes the first one left |
| KcpAcks.UnaRemoves | include/kcp/ikcp.c:570-584 | a cumulative acknowledgement removes exactly the segments before it |
| KcpAnswers.AnswersExactly | include/kcp/ikcp.c:929-987 | in every run a flush acknowledges exactly the data segments that came since the last one and were before the end of the window when they were read, in order, each with its number and its time; and it tells the window if and only if that was asked for, or a read made room in a full queue, since the last one |
| KcpAnswers.FlushFrom | include/kcp/ikcp.c:924-931 | every segment written, new or sent again, carries the free places of the receive queue, modulo 2^16, and the number waited for; data also the time |
| KcpDelivery.FewRunsAreRecent | include/kcp/ikcp.c:107-110 | a connection that accepts fewer fragments than 2^31 less the window each way meets the assumption on old datagrams, whatever the network does |
| KcpProgress.AlwaysCanFinish | include/kcp/ikcp.c:614-1112 | where both receive windows are as `ServedByAll` asks: after any run there are updates, deliveries and reads, and no further sends, after which all that was accepted has been handed out, in both directions: lost data is sent again, closed windows are probed and opened |
| KcpProgress.BytesAlwaysCanFinish | include/kcp/ikcp.c:614-1112 | the same on the bytes of the 32-bit protocol, for a connection that has accepted as few fragments as `FewRunsAreRecent` asks for |
| KcpStuck.ServedByAll | include/kcp/ikcp.c:896-902 | an end can be served in that sense by every peer whose own window is right, if and only if its receive window modulo 65536 is at least 127, the most fragments that ikcp_send allows a message |
| KcpStuck.ServedOnBytes | include/kcp/ikcp.c:896-902 | the same if and only if on bytes, for such connections and windows up to 2^31 less 128 |
| KcpStuck.StuckForever | include/kcp/ikcp.c:896-902 | where it is less, a sender that has heard of a closed window alone is never told another, whatever follows, and a message it accepted is never handed out |
| KcpStale.PushAgrees | include/kcp/ikcp.c:660-720 | a receiver on 32-bit numbers does with a data segment what one on unbounded numbers does if and only if the comparisons put it on the same side of the window's end and an old one that seems new is in rcv_buf under another number |
| KcpStale.OldIsTaken | include/kcp/ikcp.c:660-720 | a segment 2^32 numbers old is put into the receive queue as the one that is expected |
| KcpStale.RecentAlike | include/kcp/ikcp.c:107-110 | up to 2^31 numbers behind the window's end the two agree |
| KcpStale.OlderUnacked | include/kcp/ikcp.c:799-803 | a segment between 2^31 and 2^32 numbers behind the window's end is not acknowledged, so that the two differ |
| KcpDelivery.ByteRunIsRed | include/kcp/ikcp.c:726-877 | a run of the 32-bit protocol on bytes is, state by state, the reduction modulo 2^32 of a run with unbounded numbers |
| KcpDelivery.RunAgrees | include/kcp/ikcp.c:883-894 | a run that exchanges bytes is the encoding of the run that exchanges segments |
| KcpSystem.RunFlow | include/kcp/ikcp.c:614-720 | the invariant of both directions (sender, network, receiver) holds in every reachable state |
| KcpSystem.RecvMessage | include/kcp/ikcp.c:346-399 | a read that is not a peek takes the next accepted message and exactly its segments, and keeps the invariant |
| KcpSystem.RecvExactly | include/kcp/ikcp.c:329-355 | in a reachable state a read, or a peek, gives the next accepted message if and only if all of it has come and it is no longer than asked for; otherwise the code says why, and nothing changes |
| KcpSystem.NoDeadlock | include/kcp/ikcp.c:415-437 | with at least 127 queued segments the queue starts with the next message, whose length is the peeked size |
| KcpLink.PushLink | include/kcp/ikcp.c:799-824 | a data segment that arrives, new or old, keeps the invariant of its direction |
| KcpLink.AckLink | include/kcp/ikcp.c:548-568 | an acknowledgement removes only a segment that the receiver has |
| KcpLink.UnaLink | include/kcp/ikcp.c:570-584 | a cumulative acknowledgement removes only segments that the receiver has |
| KcpLink.FillLink | include/kcp/ikcp.c:997-1019 | numbering fragments continues the sequence of the accepted messages without a gap |
| KcpWrap.RedInputSegs | include/kcp/ikcp.c:726-877 | reading a recent datagram commutes with reducing all numbers modulo 2^32 |
| KcpWrap.RedFlushState | include/kcp/ikcp.c:908-1112 | so does flushing |
| KcpWrap.RedRecv | include/kcp/ikcp.c:329-409 | so does receiving |
| KcpEndpoint.AlwaysSound | include/kcp/ikcp.c:537-720 | for any calls and any input bytes: snd_buf is strictly increasing in [snd_una, snd_nxt), snd_una is its head or snd_nxt, at most 65535 numbers are in flight; rcv_buf is strictly increasing in the window from rcv_nxt, and its head is rcv_nxt only if the queue is full; every queued segment fits a datagram |
| KcpWindow.LiveOrder | include/kcp/ikcp.c:107-110 | the circular comparison of live sequence numbers is their order, across wrap-around |
| KcpWindow.ParseAckWindow | include/kcp/ikcp.c:548-568 | any acknowledged number keeps the send window, and moves snd_una only forward within it |
| KcpWindow.ParseUnaWindow | include/kcp/ikcp.c:570-584 | so does any una |
| KcpWindow.PushWindow | include/kcp/ikcp.c:660-720 | any data segment keeps the receive window |
| KcpWindow.InsertShape | include/kcp/ikcp.c:672-690 | the backward scan and insertion keep rcv_buf sorted and without duplicates |
| KcpWindow.AdvanceWindow | include/kcp/ikcp.c:697-709 | moving ready segments restores that the head is rcv_nxt only if the queue is full |
| KcpWindow.FlushWindows | include/kcp/ikcp.c:997-1083 | flushing keeps both windows |
| KcpPacking.FlushReadBack | include/kcp/ikcp.c:934-1089 | every datagram of a flush is nonempty and at most MTU bytes long, and reading the datagrams in order gives back exactly the segments written |
| KcpPacking.DatagramsFit | include/kcp/ikcp.c:1064-1077 | packing segments into datagrams loses none, reorders none and never passes the MTU |
| KcpWire.InputEncoded | include/kcp/ikcp.c:738-846 | ikcp_input on an encoded datagram does what its segments say, one after the other |
| KcpWire.ParseOneEncode | include/kcp/ikcp.c:744-763 | the reading loop takes exactly one written segment off the front |
| KcpWire.DecodeEncodeHead | include/kcp/ikcp.c:883-894 | the 24-byte header decodes to what was encoded |
| KcpOctets.EncodeIsSegment | include/kcp/ikcp.c:883-894 | a written segment octet by octet: each field at its place, its least significant octet first |
| KcpOctets.SegmentIsEncode | include/kcp/ikcp.c:883-894 | no other octets are that segment |
| KcpOctets.InputExactly | include/kcp/ikcp.c:735-846 | on any bytes ikcp_input returns no error if and only if they are at least 24 and are segments of this connection, one behind the other, with fewer than 24 bytes behind them; it then does what the segments say and returns the last command |
| KcpOctets.RefusedExactly | include/kcp/ikcp.c:744-763 | a segment is refused for a foreign connection number, a length that is not there or an unknown command, in that order, and for nothing else |
| KcpMessages.CutShape | include/kcp/ikcp.c:481-508 | a message is cut into as many fragments as are counted, of at most mss bytes, numbered down to zero |
| KcpMessages.CutJoins | include/kcp/ikcp.c:489-508 | the fragments join to the message |
| KcpMessages.FirstMessageIsCut | include/kcp/ikcp.c:357-385 | merging the fragments of a message at the front of the queue gives the message and takes exactly its fragments |
| KcpMessages.PeekWhole | include/kcp/ikcp.c:415-437 | the peeked size of such a queue is the message's length |
| KcpCongestion.AlwaysBalanced | include/kcp/ikcp.c:852-874 | in every run on any input bytes, (cwnd-1)*mss < incr < (cwnd+1)*mss and ssthresh is at least 2, for all settings whose products do not wrap |
| KcpCongestion.DefaultIsRoomy | include/kcp/ikcp.c:1221-1244 | the default MTU with any fast resend threshold up to 65535, or none, is such a setting |
| KcpCongestion.InputBytesCong | include/kcp/ikcp.c:726-877 | one ikcp_input, on any bytes, keeps the balance, never lowers cwnd and raises it by at most 2, and past the peer's window never |
| KcpCongestion.GrowOk | include/kcp/ikcp.c:852-874 | so does one growth of the window |
| KcpCongestion.FlushCongOk | include/kcp/ikcp.c:1091-1112 | the cuts after a flush keep the balance and leave cwnd at least 1 |
| KcpGrowth.InputGrows | include/kcp/ikcp.c:852-874 | on any bytes: the window grows if and only if the datagram is read to its end and advances snd_una. Below ssthresh and the peer's window cwnd grows by exactly one and incr by exactly mss; above, incr by mss*mss/incr + mss/16, and once that fills another segment cwnd is the least number of segments that hold it, or the peer's window |
| KcpGrowth.WindowRises | include/kcp/ikcp.c:852-874 | in any part of a run in which nothing is sent again, cwnd has risen after 62 datagrams that advance snd_una while it is below the peer's window, whatever the MTU |
| KcpGrowth.FlushCuts | include/kcp/ikcp.c:1091-1112 | a timeout cuts cwnd to one segment and ssthresh to half of what could be sent; otherwise segments passed over cut ssthresh to half of what is in flight and cwnd to that and the threshold, or to one less without a threshold; otherwise nothing changes but that cwnd is not left zero |
| KcpGrowth.FlushFills | include/kcp/ikcp.c:992-1019 | a flush gives out numbers until the window is full or nothing waits |
| KcpGrowth.WindowIsLeast | include/kcp/ikcp.c:993-995 | that window is the least of the send window, the peer's and, under congestion control, cwnd |
| KcpTimer.CheckSound | include/kcp/ikcp.c:1158-1194 | updating at any time from now until just before the time ikcp_check returns flushes nothing and changes only the current time, across clock wrap-around |
| KcpTimer.CheckTight | include/kcp/ikcp.c:1158-1194 | when no retransmission comes first, the time returned is one at which an update flushes |
| KcpTimer.CheckExactly | include/kcp/ikcp.c:1158-1194 | the wait is zero if a flush is due or the deadline of a segment has come, and otherwise the least of the times to the flush and to each deadline and of the interval |
| KcpRuns.FlushRateInRun | include/kcp/ikcp.c:1121-1146 | in every run of sends, receives, inputs, flushes and updates whose clock does not run back, the next flush is always in (current, current+interval] after an update, and the n-th flush by ikcp_update is at least n-1 intervals after the first |
| KcpRuns.RunIsPlay | include/kcp/ikcp.c:1121-1146 | no other call disturbs the flush timer |
| KcpRuns.AlwaysTimed | include/kcp/ikcp.c:517-535 | in every run on any input bytes the retransmission timeout is the initial one or between the configured minimum and 60000, the smoothed times are in the range of an int, and the probe wait is 0 or between 7000 and 120000 |
| KcpRuns.RttBounds | include/kcp/ikcp.c:517-535 | whatever the sample and the times, the timeout is in its bounds, and it is the one meant where the times are and the last sum fits 32 bits |
| KcpRuns.TimesWrap | include/kcp/ikcp.c:517-535 | for times and samples of an int, the smoothed time is the one meant if and only if it is the first or its sum fits an int, and so is the deviation |
| KcpRuns.SmoothedMoves | include/kcp/ikcp.c:517-535 | the times meant move towards the sample, an eighth and a quarter of the way, never past it |
| KcpRuns.RtoIsSum | include/kcp/ikcp.c:533-534 | the timeout is the smoothed time plus four deviations, or plus the interval if that is more, where that is between the minimum and 60000, and the nearer bound otherwise |
| KcpRuns.RttInRun | include/kcp/ikcp.c:517-535 | in every run whose samples are below 2^28 ms, no sum overflows: the times are those of smoothing its samples on unbounded integers |
| KcpRuns.CalmIsNeeded | include/kcp/ikcp.c:517-535 | that bound is the largest: two equal samples keep their smoothed time if and only if they are below it |
| KcpRuns.ProbeTimerOk | include/kcp/ikcp.c:947-967 | a probe is asked for exactly when the peer window is closed and a wait that was set is over; waits grow by half up to their limit, and the next probe is one wait ahead |
| KcpControlBlock.ControlBlock.constructor | include/kcp/ikcp.c:205-266 | the initial fields |
| KcpControlBlock.ControlBlock.Send | include/kcp/ikcp.c:443-511 | queues the fragments of a message, or refuses it and changes nothing |
| KcpControlBlock.ControlBlock.Peek | include/kcp/ikcp.c:415-437 | the length of the first message if it is complete, or -1 |
| KcpControlBlock.ControlBlock.Recv | include/kcp/ikcp.c:329-409 | returns and removes the first message, refills the queue, and asks for a window report when it was full; the three errors change nothing |
| KcpControlBlock.ControlBlock.UpdateAck | include/kcp/ikcp.c:517-535 | the times after a sample, computed in 32 bits; the timeout is within its bounds |
| KcpControlBlock.ControlBlock.ShrinkBuf | include/kcp/ikcp.c:537-546 | snd_una becomes the head of snd_buf, or snd_nxt |
| KcpControlBlock.ControlBlock.ParseAck | include/kcp/ikcp.c:548-568 | removes the named segment of the flight and no other |
| KcpControlBlock.ControlBlock.ParseUna | include/kcp/ikcp.c:570-584 | removes the segments before una |
| KcpControlBlock.ControlBlock.ParseFastAck | include/kcp/ikcp.c:586-608 | counts a skip for the segments before the largest acknowledged one (`KcpAcks.FastAckCounts`) |
| KcpControlBlock.ControlBlock.ParseData | include/kcp/ikcp.c:660-720 | inserts a segment in order unless it is out of the window or there already, and moves ready segments |
| KcpControlBlock.ControlBlock.TakeSegment | include/kcp/ikcp.c:765-842 | what one segment of a datagram does |
| KcpControlBlock.ControlBlock.Input | include/kcp/ikcp.c:726-877 | the return value and the state after arbitrary bytes, including the errors half way (`KcpOctets.InputExactly`, `KcpGrowth.InputGrows`) |
| KcpControlBlock.ControlBlock.GrowWindow | include/kcp/ikcp.c:852-874 | the growth of the congestion window, with 32-bit products (`KcpGrowth.InputGrows`) |
| KcpControlBlock.ControlBlock.FillBuf | include/kcp/ikcp.c:997-1019 | numbers fragments up to the window |
| KcpControlBlock.ControlBlock.Flush | include/kcp/ikcp.c:908-1112 | the state after a flush and the datagrams put out, byte by byte (`KcpResend.SendsExactly`, `KcpGrowth.FlushCuts`) |
| KcpControlBlock.ControlBlock.Update | include/kcp/ikcp.c:1121-1146 | the clock, and a flush when it is due |
| KcpControlBlock.ControlBlock.Check | include/kcp/ikcp.c:1158-1194 | the time of the next event |
| KcpControlBlock.Consider | include/kcp/ikcp.c:1029-1062 | the verdict on one segment of snd_buf and its new fields (`KcpResend.SentAgain`) |
| KcpControlBlock.Sweep | include/kcp/ikcp.c:1026-1083 | the pass over snd_buf: new fields, counters and segments written (`KcpResend.SendsExactly`) |
| KcpControlBlock.RunProbeTimer | include/kcp/ikcp.c:947-967 | the wait stays in its range, and a probe is asked for exactly when the window is closed and the wait is over |
| KcpControlBlock.WriteAnswers | include/kcp/ikcp.c:924-989 | acknowledgements and probes are written with one header, whose numbers stay those of the last acknowledgement |
| LoopBuffer.PowerOfTwoLeast | include/utils/loop_buffer.hpp:70-84 | the bit trick yields the least power of two that is not smaller, exactly for 1 to 2^31 |
| LoopBuffer.SizeIsPower | include/utils/loop_buffer.hpp:70-84 | for every requested size up to 2^31 the array has 2^k bytes for some k up to 31, which is what the ring and its shared use assume |
| LoopBuffer.LoopBuffer.constructor | include/utils/loop_buffer.hpp:83-84 | an empty ring over an array of that size |
| LoopBuffer.BufferSizeOk | include/utils/loop_buffer.hpp:83-84 | that size is a power of two and large enough |
| LoopBuffer.MaskIsRemainder | include/utils/loop_buffer.hpp:161-161 | masking with the size less one is the remainder |
| LoopBuffer.SlotAfter | include/utils/loop_buffer.hpp:161-170 | reducing a counter modulo 2^32 does not move its slot |
| LoopBuffer.OverwriteAppends | include/utils/loop_buffer.hpp:161-169 | writing behind the unread bytes, around the end, appends and moves none of them |
| LoopBuffer.LoopBuffer.Push | include/utils/loop_buffer.hpp:152-172 | appends all bytes or, when they do not fit, nothing |
| LoopBuffer.LoopBuffer.Pop | include/utils/loop_buffer.hpp:174-185 | hands out and removes a prefix; what is left starts at slot 0 |
| LoopBuffer.PopTwice | include/utils/loop_buffer.hpp:174-185 | two pops without a push drain the ring, in order |
| LoopBufferShared.IsQueue | include/utils/loop_buffer.hpp:152-185 | in every interleaving, the bytes handed out are a prefix of the bytes pushed, and the counters differ by the unread bytes, never more than the size |
| LoopBufferShared.NoOverwrite | include/utils/loop_buffer.hpp:152-172 | a byte written by the producer never lands on an unread one |
| LoopBufferShared.AlwaysInv | include/utils/loop_buffer.hpp:152-185 | every step of either thread keeps the invariant, across counter wrap-around |
| HttpDigits.ContentLength | include/http/http_parser.hpp:2107-2144 | a value is accepted exactly when it is digits and then spaces and the number is at most ULLONG_MAX - 6; the length is that number and never the one for "absent" |
| HttpDigits.Accumulate | include/http/http_parser.hpp:2607-2624 | the guard, read before the new digit is kept, refuses exactly the numbers above its limit, and what passes has not wrapped 64 bits |
| HttpBody.AlwaysSound | include/http/http_parser.hpp:2569-2698 | the assertions of the body states hold in every run on any bytes |
| HttpBody.HeadersSound | include/http/http_parser.hpp:2455-2512 | the five outcomes of the headers: a chunked body, whatever length was given; none for a length of zero; one of a given length, which is not taken for an absent one; and without a length one up to the end of the connection, or none |
| HttpBody.IdentityBody | include/http/http_parser.hpp:2516-2550 | a body of known length is that many bytes, followed by the notice that the message is complete |
| HttpBody.EofBody | include/http/http_parser.hpp:2552-2560 | a body without a length or chunks is all that comes |
| HttpBody.NoBody | include/http/http_parser.hpp:2480-2512 | a message without a body is complete with its headers |
| HttpBody.Resumable | include/http/http_parser.hpp:2717-2729 | cutting a text into pieces in any way gives the same final state and the same reports |
| HttpParser.CutAnywhere | include/http/http_parser.hpp:2717-2729 | input that one call accepts leads, cut up over any number of calls with nonempty pieces, to the same state, and the callbacks report the same body bytes and notices |
| HttpParser.BodyParser.Execute | include/http/http_parser.hpp:1089-1185 | on any piece of input: the state, the bytes consumed, and the callbacks, which report what the byte-by-byte machine reports but for marked bytes of refused input |
| HttpParser.BodyParser.Turn | include/http/http_parser.hpp:2516-2698 | one turn of the loop, with jumps over body bytes, is that many single steps |
| HttpParser.BodyParser.TakeBody | include/http/http_parser.hpp:2660-2680 | taking as many bytes as the piece and the length allow is reading them one by one |
| HttpParser.BodyParser.TakeSize | include/http/http_parser.hpp:2569-2640 | one byte of a size line |
| HttpChunks.AcceptsExactly | include/http/http_parser.hpp:2569-2698 | a text is accepted if and only if it is a list of nonempty chunks and a last line of size zero, where a size digit is what the table calls one (any byte from 0x80 is a zero) and an extension is anything without a CR behind a semicolon or a space |
| HttpRfc.AcceptsRfc | include/http/http_parser.hpp:2456-2698 | after the headers of a chunked message, every body of section 4.1 of RFC 7230, in a grammar of its own, that is within the limits of the length and of the header size is accepted, and its data is reported |
| HttpRfc.AcceptedIsRfc | include/http/http_parser.hpp:2569-2640 | an accepted text is one of that section if and only if no size byte is 0x80 or above and every extension is one of the standard |
| HttpRfc.CodedOnce | include/http/http_parser.hpp:2569-2698 | the list of chunks that a text stands for is unique |
| HttpRfc.ExtensionAllowed | include/http/http_parser.hpp:2628-2640 | every extension of the standard is skipped |
| HttpChunks.DecodesChunks | include/http/http_parser.hpp:2569-2698 | reading such a text reports each chunk's size and data in order |
| HttpChunks.ContentDecoded | include/http/http_parser.hpp:2682-2689 | the reported body is the chunks' data, joined |
| HttpRfc.HighBytesAreDigits | include/http/http_parser.hpp:648-649 | a text outside the standard that is accepted: the size 0x80 reads as zero |
| HttpRfc.LooseExtensions | include/http/http_parser.hpp:2594-2606 | another one: behind a space anything but CR is skipped |
| UrlSplit.UrlRankGrows | include/http/http_parser.hpp:919-1087 | no character leads back to an earlier part of a URL |
| UrlSplit.HostRankGrows | include/http/http_parser.hpp:2839-2933 | nor to an earlier part of a host |
| UrlFields.SplitIsWell | include/http/http_parser.hpp:3031-3163 | whatever is accepted has nonempty fields inside the text, disjoint and in the order schema, user info, host, port, path, query, fragment, made of their own characters, with only delimiters between them, and the port is the value of its digits, at most 65535 |
| UrlGrammar.AcceptsExactly | include/http/http_parser.hpp:3031-3163 | a text is accepted with some fields if and only if it is put together from parts that have these fields: schema, user info, a name or a bracketed address with perhaps a zone, a port of at most 65535, path, query and fragment with their delimiters, each made of its characters; also for CONNECT, and with a question mark directly behind a host |
| UrlGrammar.PartsAccepted | include/http/http_parser.hpp:3031-3163 | what is put together from parts is accepted, and each field is where its part stands |
| UrlOuter.WellWalks | include/http/http_parser.hpp:919-1087 | well-formed pieces of a URL, whose server is not yet taken apart, do not stop the first pass, which finds them |
| UrlOuter.WalkIsWell | include/http/http_parser.hpp:919-1087 | and what does not stop it is made of them |
| UrlHost.WellWalks | include/http/http_parser.hpp:2839-2933 | the same for the second pass over the host |
| UrlHost.WalkIsWell | include/http/http_parser.hpp:2839-2933 | in both directions |
| UrlRefine.NeedsHost | include/http/http_parser.hpp:3110-3124 | no schema, user info or port without a host |
| UrlRefine.RefinedSlices | include/http/http_parser.hpp:2935-3023 | the second pass moves no field but those inside the host |
| UrlRefine.Merged | include/http/http_parser.hpp:3118-3124 | the parts of the host, put over the fields of the first pass, are the fields that the ranks of the whole give |
| UrlParser.ParseUrl | include/http/http_parser.hpp:3031-3163 | for buffers of any length, the two passes on 16-bit numbers return exactly what `UrlStored.SplitStored` says; up to 65535 bytes, that is the splitting of the text, which is accepted exactly if it has parts and then has their fields (`UrlGrammar.AcceptsExactly`) |
| UrlStored.StoredIsSplit | include/http/http_parser.hpp:3031-3163 | unless the host or the port is read through a slice that does not fit, the result for a text of any length is its splitting, with every offset and length modulo 2^16 |
| UrlStored.StoredAgrees | include/http/http_parser.hpp:3031-3163 | and it is the splitting itself if and only if all slices fit 16 bits |
| UrlStored.ShortNeverWraps | include/http/http_parser.hpp:3031-3163 | for texts up to 65535 bytes it always is |
| UrlStored.LongPathWraps | include/http/http_parser.hpp:3096-3106 | a longer one for which it is not: a path of 65537 bytes is returned with length 1 |
| UrlParser.FirstPass | include/http/http_parser.hpp:3050-3108 | the loop records a field as the run of characters that belong to it, in 16-bit numbers |
| UrlParser.ParseHost | include/http/http_parser.hpp:2935-3023 | the second pass, on the host's stored slice |
| UrlParser.ParsePort | include/http/http_parser.hpp:3132-3157 | the port's value, refused as soon as it leaves its range, which for digits is exactly when it passes 65535 |
| Sha1.Sha1 | include/websocket/wsock_shakehand.hpp:111-119 | the five unrolled loops in place are the compression function with an 80-word schedule (section 6.1.2 of FIPS 180-4) |
| Sha1.SourceAgrees | include/websocket/wsock_shakehand.hpp:52-85 | the short boolean forms and the order of additions compute the standard's functions |
| Sha1.HoldsNext | include/websocket/wsock_shakehand.hpp:55-58 | rewriting two places of the register array is a whole round with rotated names |
| Sha1.BlkIsWord | include/websocket/wsock_shakehand.hpp:47-49 | the word mixed from the 16-word circle is the schedule's next word |
| WsHandshake.Generate | include/websocket/wsock_shakehand.hpp:188-209 | for every 24-byte key, the base64 of the SHA-1 of the key followed by the GUID (section 4.2.2 of RFC 6455) |
| WsHandshake.TwoBlocks | include/websocket/wsock_shakehand.hpp:189-199 | the two constant-filled blocks are the padded message |
| WsHandshake.EncodeDigest | include/websocket/wsock_shakehand.hpp:173-186 | the encoder of 20 bytes is the coding of section 4 of RFC 4648 |
| WsHandshake.EncodeText | include/websocket/wsock_shakehand.hpp:127-171 | so is the encoder for strings of any length |
| WsBase64.ReadBack | include/websocket/wsock_shakehand.hpp:127-186 | that text, read by the values of its symbols, gives the octets back |
| WsFrame.RoundTrip | include/websocket/wsock_protocol.hpp:85-190 | for every payload whose frame fits the reader's buffer, masked or not and whatever follows, the reader delivers exactly the payload and uses exactly the frame |
| WsFrame.LengthAgrees | include/websocket/wsock_connection.hpp:197-234 | the measured length is the frame's, once 16 bytes are there |
| WsFrame.ReadAgrees | include/websocket/wsock_connection.hpp:197-234 | on any bytes the reader uses the measured length |
| WsFrame.WriteFrame | include/websocket/wsock_connection.hpp:72-145 | the frame written, for every payload but one of 65535 bytes |
| WsFrame.MakeHeader | include/websocket/wsock_connection.hpp:83-134 | the header, and that it is too short exactly for 65535 bytes |
| WsFrame.MaskTwice | include/websocket/wsock_connection.hpp:136-145 | unmasking undoes masking |
| WsOctets.XorIsXor | include/websocket/wsock_connection.hpp:136-145 | masking sets a bit if and only if exactly one of the octet and the key octet has it |
| WsOctets.XorUndoes | include/websocket/wsock_connection.hpp:136-145 | what was masked with an octet is unmasked with it |
| WsOctets.WrittenIsFrame | include/websocket/wsock_connection.hpp:72-145 | what is written is a final frame of section 5.2 of RFC 6455, octet by octet, whose payload octet i is msg[i], exclusive or key[i % 4] when it is masked, if and only if the payload has not 65535 octets |
| WsOctets.ReadsFrames | include/websocket/wsock_protocol.hpp:85-190 | the reader delivers the payload of every such frame of any peer that its buffer holds, and uses exactly the frame |
| WsFrame.MessageReader.Read | include/websocket/wsock_protocol.hpp:85-240 | what is delivered and consumed for any bytes, and whether the reader would look past them |
| WsFrame.OverrunExactly | include/websocket/wsock_connection.hpp:197-252 | of data that handle_package passes, the reader looks past it if and only if the announced length wraps 64 bits and what is left fits the reader buffer |
| WsFrame.OverrunOnPackage | include/websocket/wsock_connection.hpp:236-252 | the same for a reader that is given only the bytes that were measured |
| WsFrame.WrappedFrame | include/websocket/wsock_connection.hpp:224-231 | such a frame: an announced length of 2^64-2 measures as 12 |
| WsFrame.GetMessageLength | include/websocket/wsock_connection.hpp:197-234 | the length of the first frame |
| WsFrame.HandlePackage | include/websocket/wsock_connection.hpp:236-252 | of data that starts with a written frame or a part of one, the frame is reported if and only if all of it is there and at least 16 bytes are |
| WsFrame.PackageExactly | include/websocket/wsock_connection.hpp:197-252 | the same as a fact about the bytes |
| UrlText.DecodeEncode | include/http/http_url.hpp:375-480 | decoding undoes percent coding of ASCII text |
| UrlCoding.EncodeWrites | include/http/http_url.hpp:405-480 | which characters a path, a key and a value keep, by name; a space is a plus sign in a query; and any other character is a percent sign and its two digits |
| UrlCoding.DecodesExactly | include/http/http_url.hpp:375-405 | a text is decoded to another if and only if it spells it, character by character: as it is, or as a percent sign and two digits of either case |
| UrlText.QueryReadBack | include/http/http_url.hpp:1096-1117 | the text printed for any list of pairs with keys reads back as the same list |
| UrlCoding.ReadsExactly | include/http/http_url.hpp:1096-1117 | a query is read as some pairs if and only if it is entries with an ampersand or a semicolon between each two, and each is a key, or a key and a value around the first equals sign, of allowed characters and spelled like that |
| UrlText.EncodedIsValid | include/http/http_url.hpp:416-424 | encoded text passes the parser's character check |
| UrlText.PrintQuery | include/http/http_url.hpp:940-955 | the query's text, or an error exactly when some key is empty |
| UrlText.ParseQuery | include/http/http_url.hpp:1096-1117 | the pairs of a text, or an error |
| UrlText.EncodeText | include/http/http_url.hpp:405-480 | the three encoders |
| UrlText.DecodeText | include/http/http_url.hpp:375-405 | both decoders |
| UrlPath.NormalizePath | include/http/http_url.hpp:338-373 | the loop over segments is the fold over all of them |
| UrlPath.NormalizedIsClean | include/http/http_url.hpp:338-373 | a normalised path has no dot segment, and no empty one but perhaps the last |
| UrlPath.Idempotent | include/http/http_url.hpp:338-373 | normalising again changes nothing |
| UrlPath.PathStable | include/http/http_url.hpp:1094-1095 | a normalised ASCII path is unchanged by encoding, decoding and normalising |
| UrlDots.NormalIsRfc | include/http/http_url.hpp:338-373 | a rooted path is normalised to what remove_dot_segments of RFC 3986 (section 5.2.4) makes of it without its empty inner segments, except that a final ".." leaves no slash behind a path that is more than one |
| UrlDots.AgreesWithRfc | include/http/http_url.hpp:338-373 | a rooted path without empty inner segments is normalised as the standard asks if and only if it does not end in such a ".." |
| UrlDots.SlashLost | include/http/http_url.hpp:357-360 | the paths /a/b/.. are not, for any segments a and b |
| UrlDots.EmptyLost | include/http/http_url.hpp:345-347 | nor are the paths /a//b |

## Left out

- KCP stream mode, ikcp_setmtu, ikcp_nodelay and ikcp_wndsize during a connection, and failing allocations: settings are fixed when a control block is made.
- KCP logging, and calls back into KCP from the output callback: the datagrams of a flush are recorded when it ends.
- The four intrusive lists and the array of pending acknowledgements are sequences in fields: how nodes are linked and the array grows (`include/kcp/ikcp.h`) is not modelled.
- HttpRfc.AcceptsRfc: the grammar is that of the section as published, without the optional blanks that its errata add around extensions.
- Mss: settings whose MTU is 2^31 or more are excluded, since the segment size would not fit an int.
- KcpDelivery.InOrderDelivery: assumes that no datagram outlives 2^31 sequence numbers, without which old data is taken for new (`KcpStale.OldIsTaken`), and that both ends share one connection number.
- KcpRuns.TimesWrap: takes a long to have 64 bits.
- KCP's peer in `KcpDelivery` keeps to the protocol; what arbitrary bytes can do to one end is stated in `KcpEndpoint`, `KcpWindow` and `KcpCongestion`.
- `include/kcp/kcp_connection.hpp`: sockets, timers and its handshake.
- Ring buffer: `clear`, `mpush`, `read`/`commit` and `peek`, weak memory order, and two bytes of one memcpy becoming visible in an order other than that of their addresses.
- HttpBody.HeadersSound: messages whose body is skipped, and connections that are upgraded, are not modelled.
- HTTP parser: request line, status line, header fields, trailers and the next message. The body machine stops when it reaches them, and callbacks return 0.
- `include/http/http_decoder.hpp`: it keeps only the last piece of a body.
- WebSocket: the random mask key is an argument, and sending is left out. Where the reader would look past the data the model stops and says so. The source writes unmasked bytes behind the end of a string whose memory was only reserved; the model appends them. Control frames, fragmentation and closing are not modelled.
- `include/http/http_url.hpp`: schemes, user info, hosts, IPv6 and ports. `UrlDots` is about rooted paths.
- asio, TLS, listeners, connectors, workers and factories.
