# Verified models of the repository's hard cores

This project states and proves, in Dafny, what four parts of the repository promise. Each part has an
imperative model that works the way the C code works (fields, linked nodes and buffers updated in place,
loops with invariants) and value-level functions or invariants against which it is proved; the promises
are lemmas about those.

* **KCP**, the reliable protocol of `senior/2.2_udp-kcp-quic/kcp_latest/ikcp.c`. `kcp_spec.dfy` defines what
  every operation does to the control block as a value, once, for two readings of the arithmetic: sequence
  numbers that never wrap and 32-bit words. `kcp_endpoint.dfy` is the control block as a class whose methods
  follow the C functions and are proved equal to those functions in 32-bit arithmetic, down to the bytes given
  to the output callback. What each of these functions guarantees is said without naming it: `kcp_flight.dfy` for a
  flush, `kcp_replies.dfy` and `kcp_intake.dfy` for an input, `kcp_receive.dfy` for the receiving side, `kcp_settings.dfy` for the configuration.
  `kcp_queues.dfy` has the invariants of one endpoint under arbitrary input,
  `kcp_framing.dfy` fragmentation, `kcp_wire.dfy` and `kcp_datagrams.dfy` the wire format and the packing of
  segments, `kcp_timing.dfy` the cadence of flushes and the agreement of check and update, `kcp_timers.dfy` the retransmission timeout, the
  deadlines and the window probe, `kcp_congestion.dfy` the congestion window.
  `kcp_system.dfy` joins two endpoints by a network that keeps every datagram ever sent and delivers any of
  them, in any order, any number of times or never; the end-to-end promises are proved there without
  wrap-around. `kcp_progress.dfy` adds that no state of such a run is stuck, and `kcp_wedge.dfy` for which receive
  windows that is so. `kcp_nearest.dfy` says how a 32-bit endpoint reads a number, as the nearest one with that word,
  and when it mistakes one number for another; `kcp_refinement.dfy` carries the promises to the 32-bit system
  over encoded datagrams, and `kcp_stale.dfy` constructs the runs in which late datagrams break them.
* **Ordered trees.** `rb_store.dfy` turns a heap of nodes with parent pointers into a value and relates it to a
  tree with a hole (a subtree and the path above it); `rb_colors.dfy` and `rb_delete.dfy` prove each case of
  insertion and deletion repair on such pairs. `rb_engine.dfy` is the sentinel red-black tree of the key-value
  store, which deletes by swapping keys; `nty_rb.dfy`, with `rb_line.dfy`, is the tree with NULL leaves of
  `senior/2.4_Ustack/nty_tree.h`, which deletes by moving nodes; `splay_shapes.dfy`, `splay_steps.dfy` and
  `splay_tree.dfy` are the top-down splay tree of the same header.
* **The skip list and the engine interface.** `skip_levels.dfy` reasons about which node follows which on a
  level, `skip_table.dfy` is the engine with its `forward` arrays, and `kvstore.dfy` the command dispatcher,
  proved to answer alike over either engine and to mean what its replies say. `dict.dfy` and `str_order.dfy` hold maps and key order.
* **The worker pool and DNS names.** `pool_steps.dfy` models the pool of `junior/04_threadpool/Threadpool.c` as
  interleaved steps around its mutex and condition variable, `pool_tasks.dfy` its doubly linked list;
  `dns_question.dfy` and `dns_names.dfy` model the name encoder and the compressed-name parser of
  `junior/06_dns/dns.c` against sections 3.1 and 4.1.4 of RFC 1035.

Some promises turned out to need a condition, and it is proved which:

* The end-to-end promises of the 32-bit protocol hold in every run in which no delivery is mistaken: no late
  number is read as an acknowledgement of something in flight or as a piece inside the receive window
  (`ClearRun`, `LatePiece`, `LateUna`, `LateAck`). Nothing is mistaken while nothing comes half the number space
  (2^31) late (`TimelyRunIsClear`). Without the condition the first promise fails in a run of 2^32 messages
  (`LateDeliveryBreaksPrefix`) and the second, by a late acknowledgement, in one of 2^31
  (`LateReplyLosesSegment`).
* No reachable state is stuck (`NeverStuck`), if the receive window fits its 16-bit field: what a peer is told is
  `rcv_wnd - nrcv_que` modulo 2^16. Exactly for the windows whose low 16 bits are below 127 (65536 among
  them) the field can read zero for good while a message is incomplete, and some
  conversation wedges (`TellableExactly`, `Wedge`).
* Datagrams fit the MTU if and only if no call lowers it below a piece already queued or in flight
  (`StepSendable`); after such a call a flush writes beyond its work buffer exactly when it sends a piece larger
  than that (`OverrunExactly`), which `LoweredMtuOverruns` shows to happen. That holds for every MTU below 2^30 and
  for no other (`SafeMtuExactly`): from 2^30 on the sum with which a flush compares its datagram overflows `int`
  (`LargeMtuOverruns`), and from 1431655742 on the size of the work buffer wraps as well (`WrappedRoomOverruns`).
* A fast-retransmission window is counted right in bytes exactly if these fit 32 bits (`FlushCongKeeps`).
* Doubling the timeout of a segment keeps it from being due at once exactly while it stays within 2^31
  (`DueAtOnce`), which a segment first sent at the longest timeout leaves with its sixteenth retransmission
  (`SixteenthTimeout`).
* In the pool, work conservation holds except between the append and the signal of a push, a moment inside
  the locked region, and there it fails exactly if the push came while a worker was blocked and every awake idle
  worker already had a task coming (`BehindExactly`, `NotBeforeTheSignal`).
* The DNS parser follows only the second byte of a compression pointer, so pointers to offsets of 256 or
  more are misread (`FarPointerMisread`), though one may by chance lead to the same labels; among names whose
  pointers are all below 256 it writes a trailing dot exactly when the last label is followed by a pointer to an
  empty name (`ReadsBack`, `ExtraDot`).
* It fails to stop exactly when 257 pointers follow one another (`StopsUnlessEndless`, `SelfPointerLoops`);
  section 4.1.4 of RFC 1035 rules such messages out, the code does not look for them.

`dafny verify dfyconfig.toml` checks the whole project.

## Model

| member | source | states |
|---|---|---|
| `KcpSystem.ReceivedIsPrefixOfSent` | senior/2.2_udp-kcp-quic/kcp_latest/ikcp.c:358-544 | In every run of two hosts over a channel that loses, repeats and reorders datagrams, what non-peek `ikcp_recv` has handed out is a prefix of what the peer's `ikcp_send` accepted: message by message while the sender stayed in message mode, byte by byte in any mode |
| `KcpSystem.NoSegmentLost` | senior/2.2_udp-kcp-quic/kcp_latest/ikcp.c:567-613 | In every such run each number below a sender's `snd_nxt` is still in its `snd_buf` or already with the peer (below `rcv_nxt` or in `rcv_buf`) |
| `KcpSystem.FullQueueHasMessage` | senior/2.2_udp-kcp-quic/kcp_latest/ikcp.c:441-463 | The receiver cannot wedge: in every such run a receive queue filled to `rcv_wnd` has a complete message at its front |
| `KcpSystem.EveryStateOk` | senior/2.2_udp-kcp-quic/kcp_latest/ikcp.c:756-1145 | The invariant behind the three results holds in every state of every run, for every interleaving of sends, receives, flushes, updates, configuration calls and deliveries |
| `KcpProgress.NeverStuck` | senior/2.2_udp-kcp-quic/kcp_latest/ikcp.c:358-1178 | No reachable state is stuck: while the low 16 bits of both receive windows are at least 127, every run, also one ending with a closed window, can be continued by flushes, updates with clocks that do not run backward, deliveries and receives alone so that all that either side accepted has been handed out to the other |
| `KcpProgress.OneWay` | senior/2.2_udp-kcp-quic/kcp_latest/ikcp.c:358-1178 | In one direction it takes the receiver's window alone |
| `KcpProgress.Complete` | senior/2.2_udp-kcp-quic/kcp_latest/ikcp.c:938-1145 | From any state with the invariant, a closed window included, some such continuation hands out all that one side has accepted, nothing else being accepted meanwhile |
| `KcpProgress.EveryStateLive` | senior/2.2_udp-kcp-quic/kcp_latest/ikcp.c:723-739 | Every reachable state has that invariant: besides the system's, a receive queue shorter than 128 pieces holds back nothing deliverable |
| `KcpWedge.TellableExactly` | senior/2.2_udp-kcp-quic/kcp_latest/ikcp.c:926-932 | A receive window of at least 128 never leaves a run stuck if and only if its low 16 bits are at least 127 |
| `KcpWedge.Wedge` | senior/2.2_udp-kcp-quic/kcp_latest/ikcp.c:913-932 | For every other window there is a run after which no continuation hands out what was accepted: its 16-bit field reads zero while the queue waits for the rest of a message |
| `KcpWedge.WedgedForever` | senior/2.2_udp-kcp-quic/kcp_latest/ikcp.c:975-1028 | No flush, update, delivery or receive leads out of that state |
| `KcpSystem.SendStep` | senior/2.2_udp-kcp-quic/kcp_latest/ikcp.c:469-544 | A send keeps a host's invariant: the log of sent and queued pieces still spells exactly the accepted buffers |
| `KcpSystem.ReceiveStep` | senior/2.2_udp-kcp-quic/kcp_latest/ikcp.c:756-876 | Taking any datagram the peer ever sent keeps the invariant of both hosts and both directions |
| `KcpSystem.ActStep` | senior/2.2_udp-kcp-quic/kcp_latest/ikcp.c:358-1145 | Every local call keeps the invariant of both hosts and both directions |
| `KcpSystem.FlushUpdatedStep` | senior/2.2_udp-kcp-quic/kcp_latest/ikcp.c:938-1145 | A flush acknowledges only what it accepted, sends only what was put into flight, and forgets nothing unacknowledged |
| `KcpSystem.DrainStep` | senior/2.2_udp-kcp-quic/kcp_latest/ikcp.c:413-425 | Draining the reorder buffer moves exactly the next pieces of the peer's log and takes responsibility for no fewer numbers |
| `KcpRefinement.WrappedRunRefines` | senior/2.2_udp-kcp-quic/kcp_latest/ikcp.c:136-139 | The 32-bit system over encoded datagrams refines the unbounded one in which each endpoint reads a number as the nearest one with the same word: state by state, however late datagrams are, up to and including the first delivery that is mistaken for another |
| `KcpRefinement.FreshRunRefines` | senior/2.2_udp-kcp-quic/kcp_latest/ikcp.c:136-139 | Where every piece comes at most 2^31 minus the receive window late, less than 2^31 at any rate, and every acknowledgement less than 2^31, the 32-bit run is the image, modulo 2^32, of the plain unbounded run |
| `KcpRefinement.WrappedReceivedIsPrefixOfSent` | senior/2.2_udp-kcp-quic/kcp_latest/ikcp.c:756-876 | The end-to-end promise of the real 32-bit protocol over encoded datagrams: it holds in every run in which no delivery is mistaken |
| `KcpRefinement.WrappedNoSegmentLost` | senior/2.2_udp-kcp-quic/kcp_latest/ikcp.c:567-613 | So does the second: a number put into flight and not yet with the peer, in order or in its reorder buffer, is in the sender's buffer, each number by its word |
| `KcpRefinement.WrappedFullQueueHasMessage` | senior/2.2_udp-kcp-quic/kcp_latest/ikcp.c:441-463 | And the third: a receive queue filled to `rcv_wnd` has a complete message at its front |
| `KcpRefinement.ImgNext` | senior/2.2_udp-kcp-quic/kcp_latest/ikcp.c:756-1145 | One event commutes with reduction modulo 2^32 |
| `KcpRefinement.ImgReceive` | senior/2.2_udp-kcp-quic/kcp_latest/ikcp.c:768-876 | Decoding and processing a datagram commutes with reduction modulo 2^32 |
| `KcpRefinement.ImgAct` | senior/2.2_udp-kcp-quic/kcp_latest/ikcp.c:358-1178 | Every local call commutes with reduction modulo 2^32 |
| `KcpRefinement.ImgFlush` | senior/2.2_udp-kcp-quic/kcp_latest/ikcp.c:938-1145 | A flush commutes with reduction modulo 2^32, state and packets |
| `KcpRefinement.InputRoundTrip` | senior/2.2_udp-kcp-quic/kcp_latest/ikcp.c:768-876 | The input loop reads the encoding of any packet list back as exactly those packets, nothing left over, whatever the arithmetic |
| `KcpRefinement.SenderSpan` | senior/2.2_udp-kcp-quic/kcp_latest/ikcp.c:1023-1049 | The in-flight window never exceeds 65535 |
| `KcpRefinement.Drift` | senior/2.2_udp-kcp-quic/kcp_latest/ikcp.c:834-836 | A sender is never further ahead of its peer than the peer's receive window limit and its own window together |
| `KcpNearest.NearStateOk` | senior/2.2_udp-kcp-quic/kcp_latest/ikcp.c:756-876 | The invariant behind the three results holds in every run without a mistaken delivery, however late its datagrams are |
| `KcpNearest.TimelyRunIsClear` | senior/2.2_udp-kcp-quic/kcp_latest/ikcp.c:834-852 | Where nothing comes half the number space late no delivery is mistaken, whatever the receive window |
| `KcpNearest.LatePiece` | senior/2.2_udp-kcp-quic/kcp_latest/ikcp.c:834-836 | A piece that is late is mistaken if and only if its distance from `rcv_nxt`, modulo 2^32, is less than the receive window |
| `KcpNearest.LateUna` | senior/2.2_udp-kcp-quic/kcp_latest/ikcp.c:600-613 | A cumulative acknowledgement more than 2^31 late is mistaken for one ahead of `snd_una` if and only if its distance from that, modulo 2^32, lies strictly between 0 and 2^31 |
| `KcpNearest.LateAck` | senior/2.2_udp-kcp-quic/kcp_latest/ikcp.c:578-597 | A selective acknowledgement that late is mistaken for one of a segment in flight if and only if its distance from `snd_una`, modulo 2^32, is less than the number of segments in flight |
| `KcpStale.LateDeliveryBreaksPrefix` | senior/2.2_udp-kcp-quic/kcp_latest/ikcp.c:834-852 | Without the condition the promise fails: a run of 2^32 messages, clear up to its last delivery, after which the first datagram, delivered once more, is handed out as a message that was never sent |
| `KcpStale.LateReplyLosesSegment` | senior/2.2_udp-kcp-quic/kcp_latest/ikcp.c:600-613 | So does the second, twice as early: a run of 2^31 + 3 messages, clear up to its last event, in which the first acknowledgement, delivered once more, makes the sender drop a segment that never arrived |
| `SeqNum.DiffRefines` | senior/2.2_udp-kcp-quic/kcp_latest/ikcp.c:136-139 | `_itimediff` of two wrapped numbers is their true difference if and only if that lies in [-2^31, 2^31) |
| `SeqNum.AddRefines` | senior/2.2_udp-kcp-quic/kcp_latest/ikcp.c:1043 | Advancing a wrapped number is the wrapped image of advancing the unbounded one |
| `SeqNum.DiffIsOffsetDistance` | senior/2.2_udp-kcp-quic/kcp_latest/ikcp.c:136-139 | Relative to any base within 2^31, `_itimediff` orders numbers by their distance from the base |
| `KcpQueues.EveryRunKeeps` | senior/2.2_udp-kcp-quic/kcp_latest/ikcp.c:358-1145 | Every run of sends, receives, arbitrary input bytes, flushes, updates and configuration calls keeps the queue invariants: `snd_buf` and `rcv_buf` strictly increasing, `snd_una` the head of `snd_buf` or `snd_nxt`, `rcv_buf` and `rcv_queue` within the widest receive window so far (the present one if it was never made smaller), `rcv_queue` contiguous up to `rcv_nxt - 1`; unless a call widens the window nothing deliverable ever stays in `rcv_buf`; for both number readings |
| `KcpQueues.StepKeeps` | senior/2.2_udp-kcp-quic/kcp_latest/ikcp.c:358-1145 | One operation keeps those invariants |
| `KcpQueues.InputBytesKeeps` | senior/2.2_udp-kcp-quic/kcp_latest/ikcp.c:768-876 | Input of any bytes, well-formed or not, keeps them |
| `KcpQueues.FlushKeeps` | senior/2.2_udp-kcp-quic/kcp_latest/ikcp.c:1027-1049 | A flush keeps them, and lets no segment past the 65535-wide window |
| `KcpQueues.TakeUnaKeeps` | senior/2.2_udp-kcp-quic/kcp_latest/ikcp.c:600-613 | Any cumulative acknowledgement, also a nonsensical one, leaves a well-formed sender |
| `KcpQueues.TakeAckKeeps` | senior/2.2_udp-kcp-quic/kcp_latest/ikcp.c:578-597 | Any selective acknowledgement leaves a well-formed sender |
| `KcpQueues.InsertKeeps` | senior/2.2_udp-kcp-quic/kcp_latest/ikcp.c:702-720 | Insertion searched from the back keeps the reorder buffer strictly increasing and adds exactly the new piece |
| `KcpQueues.DrainShape` | senior/2.2_udp-kcp-quic/kcp_latest/ikcp.c:413-425 | The drain moves a maximal run of consecutive numbers, in order, within `rcv_wnd` |
| `KcpQueues.DrainKeeps` | senior/2.2_udp-kcp-quic/kcp_latest/ikcp.c:727-739 | After a drain nothing deliverable is left behind and the receiver is well formed |
| `KcpQueues.TakeMessageKeeps` | senior/2.2_udp-kcp-quic/kcp_latest/ikcp.c:380-432 | Handing out a message keeps the receiver well formed and drained |
| `KcpQueues.CreateOk` | senior/2.2_udp-kcp-quic/kcp_latest/ikcp.c:234-296 | A new control block satisfies the invariants |
| `KcpFlight.FlushFills` | senior/2.2_udp-kcp-quic/kcp_latest/ikcp.c:1023-1049 | A flush obeys every window: with W the least of `snd_wnd`, `rmt_wnd` and, unless `nocwnd` is set, `cwnd`, exactly as many queued pieces enter flight as W leaves room for beside those in flight, in order and with the next numbers, and the rest stays queued |
| `KcpFlight.FlushSends` | senior/2.2_udp-kcp-quic/kcp_latest/ikcp.c:950-1114 | It sends one acknowledgement for each piece received since the last, in the order received, then the window commands, then exactly the pieces in flight that are new, timed out or passed over, in order and whole; every packet carries `rcv_nxt` and the free receive window modulo 2^16 |
| `KcpFlight.FlushLeaves` | senior/2.2_udp-kcp-quic/kcp_latest/ikcp.c:1055-1115 | It leaves each piece it does not send alone and gives each it sends its new timeout and deadline, by case; the counter of timeouts has counted them, and the link is dead from the first piece sent `dead_link` times |
| `KcpFlight.FlushAdapts` | senior/2.2_udp-kcp-quic/kcp_latest/ikcp.c:1123-1144 | Afterwards `cwnd` is one segment and `ssthresh` half the window that applied if a piece timed out; if one was passed over and none timed out, half of what is in flight, and that and the threshold of fast retransmission; otherwise both stay, `cwnd` at least 1 |
| `KcpFlight.FirstFlight` | senior/2.2_udp-kcp-quic/kcp_latest/ikcp.c:234-296 | A new endpoint with pieces queued sends none at its first update and exactly one when the next flush is due, to be sent again after 225 ms |
| `KcpReplies.AckedExactly` | senior/2.2_udp-kcp-quic/kcp_latest/ikcp.c:578-613 | A segment of an input takes out of flight exactly the pieces at the front that lie below its `una` and, if it is an acknowledgement, the piece of number `sn`; the others stay, unchanged and in order, and `snd_una` is the oldest of them |
| `KcpReplies.BelowExactly` | senior/2.2_udp-kcp-quic/kcp_latest/ikcp.c:600-613 | The pieces at the front below `una` are all that lie below it, unless it lies half the number space behind, give or take 2^16 |
| `KcpReplies.AckedByInput` | senior/2.2_udp-kcp-quic/kcp_latest/ikcp.c:787-804 | What a datagram acknowledges by number is not in flight any more after the whole of it |
| `KcpReplies.KeptByInput` | senior/2.2_udp-kcp-quic/kcp_latest/ikcp.c:787-804 | What it does not acknowledge, by number or by `una`, still is, with the same bytes |
| `KcpReplies.SkippedExactly` | senior/2.2_udp-kcp-quic/kcp_latest/ikcp.c:616-638 | At its end exactly the pieces in flight that are older than its newest acknowledgement and were not sent after it count as skipped once more |
| `KcpReplies.NewestIsNewest` | senior/2.2_udp-kcp-quic/kcp_latest/ikcp.c:805-821 | That acknowledgement is one of the datagram, and none of the datagram is newer by number and by time, while these lie within half their number space |
| `KcpReplies.SegmentTells` | senior/2.2_udp-kcp-quic/kcp_latest/ikcp.c:787-866 | Every segment brings the peer's window, an acknowledgement a round-trip sample unless it was sent in the future, a probe the duty to tell the window; nothing else changes but the queues |
| `KcpIntake.Splits` | senior/2.2_udp-kcp-quic/kcp_latest/ikcp.c:768-791 | Every byte string is the encoding of some proper segments followed by one of four endings: fewer than 24 bytes, another conversation, a payload cut off, an unknown command |
| `KcpIntake.InputTakes` | senior/2.2_udp-kcp-quic/kcp_latest/ikcp.c:756-907 | The input takes those segments one after another and returns 0, -1, -2 or -3 by the ending; what was taken stays taken, but skipped pieces are counted and the window is opened only with 0 |
| `KcpIntake.InputReads` | senior/2.2_udp-kcp-quic/kcp_latest/ikcp.c:756-907 | The whole `ikcp_input`: less than 24 bytes are refused with -1; otherwise it is as above for the segments its bytes split into, and the window opens if `snd_una` has moved since the input began |
| `KcpReceive.RecvExactly` | senior/2.2_udp-kcp-quic/kcp_latest/ikcp.c:358-409 | For any buffer length: -1 if and only if the queue is empty, -2 if and only if its first piece announces more pieces than are there, -3 if and only if the message at the front is longer than the buffer; otherwise exactly that message, however large the buffer; a failure changes nothing |
| `KcpReceive.CompleteExactly` | senior/2.2_udp-kcp-quic/kcp_latest/ikcp.c:441-463 | In a framed log that announcement holds exactly if some piece in the queue is the last of its message |
| `KcpReceive.RecvLeaves` | senior/2.2_udp-kcp-quic/kcp_latest/ikcp.c:379-435 | A receive takes exactly that message out of the queue, a peek nothing; the queue is refilled from `rcv_buf` by all that is contiguous and fits, nothing lost, and the window is announced if the queue was full and is not now |
| `KcpReceive.PushExactly` | senior/2.2_udp-kcp-quic/kcp_latest/ikcp.c:690-750 | A piece inside the receive window is kept, once, in whatever order it comes, and moved on with all that it makes contiguous; one outside is not; it is acknowledged exactly if it lies below the end of the window, so a repeat is acknowledged again |
| `KcpFraming.SendConserves` | senior/2.2_udp-kcp-quic/kcp_latest/ikcp.c:469-544 | A non-negative `ikcp_send` appends exactly that many leading bytes to the queued payload; -2 changes nothing; in message mode -2 is returned if and only if the buffer needs 128 pieces or more |
| `KcpFraming.SendSizes` | senior/2.2_udp-kcp-quic/kcp_latest/ikcp.c:521-541 | No queued piece exceeds `mss` |
| `KcpFraming.SendParses` | senior/2.2_udp-kcp-quic/kcp_latest/ikcp.c:478-541 | In message mode the queued pieces, read by counting fragments down, are exactly the accepted messages |
| `KcpFraming.MessagePacks` | senior/2.2_udp-kcp-quic/kcp_latest/ikcp.c:503-541 | In message mode an accepted buffer becomes new pieces behind the queue, all but the last full, numbered down to 0, with exactly its bytes and no empty piece but for an empty buffer; more than 127 full pieces are refused with -2 |
| `KcpFraming.StreamPacks` | senior/2.2_udp-kcp-quic/kcp_latest/ikcp.c:478-541 | In stream mode a send fills the last piece first, so that if all queued pieces but the last are full they still are; it takes everything unless more than 127 further pieces are needed, then only what filled the last piece, or nothing (-2) |
| `KcpFraming.RefusalBound` | senior/2.2_udp-kcp-quic/kcp_latest/ikcp.c:509-516 | The piece count reaches 128 exactly when the buffer exceeds 127 times `mss` |
| `KcpFraming.CutShape` | senior/2.2_udp-kcp-quic/kcp_latest/ikcp.c:520-541 | Fragmentation yields `count` pieces of at most `mss` bytes whose numbers count down to 0 (all 0 in stream mode) and whose payloads concatenate to the buffer |
| `KcpFraming.CutParses` | senior/2.2_udp-kcp-quic/kcp_latest/ikcp.c:520-541 | Reassembling the pieces of a buffer gives back the buffer as one message |
| `KcpFraming.FrontMessage` | senior/2.2_udp-kcp-quic/kcp_latest/ikcp.c:441-463 | A queue that starts at a message boundary holds the whole first message exactly when it holds as many pieces as its first fragment number announces |
| `KcpFraming.MessageParses` | senior/2.2_udp-kcp-quic/kcp_latest/ikcp.c:383-409 | Merging up to the first fragment number 0 yields one complete message |
| `Wire.HeaderRoundTrip` | senior/2.2_udp-kcp-quic/kcp_latest/ikcp.c:776-785 | Decoding an encoded header gives back every field |
| `Wire.HeaderLayout` | senior/2.2_udp-kcp-quic/kcp_latest/ikcp.c:54-124 | The header has 24 bytes, each field at its place with the least significant byte first |
| `Wire.PacketRoundTrip` | senior/2.2_udp-kcp-quic/kcp_latest/ikcp.c:913-924 | A packet in front of any bytes decodes to its fields, its payload and exactly those bytes |
| `Wire.EncodeAllFront` | senior/2.2_udp-kcp-quic/kcp_latest/ikcp.c:913-924 | A datagram's bytes are those of its first packet followed by those of the rest |
| `Wire.PackContents` | senior/2.2_udp-kcp-quic/kcp_latest/ikcp.c:963-1121 | Packing segments into datagrams neither loses, repeats, invents nor reorders a segment |
| `Wire.PackFits` | senior/2.2_udp-kcp-quic/kcp_latest/ikcp.c:963-1121 | Packing makes no empty datagram and none above the MTU when every segment fits it |
| `Wire.PackTight` | senior/2.2_udp-kcp-quic/kcp_latest/ikcp.c:963-1121 | It starts a new datagram only when the next segment would not fit the last |
| `KcpDatagrams.FlushedDatagrams` | senior/2.2_udp-kcp-quic/kcp_latest/ikcp.c:938-1121 | Every datagram a flush outputs is non-empty, at most `mtu` bytes, and is read by any peer's input loop as exactly the segments flushed into it |
| `KcpDatagrams.EveryFlushFits` | senior/2.2_udp-kcp-quic/kcp_latest/ikcp.c:1230-1243 | Whatever happened since creation, as long as no call set an MTU of 2^30 or more or lowered it below a piece then queued or in flight, a flush is in the situation in which that holds |
| `KcpDatagrams.StepSendable` | senior/2.2_udp-kcp-quic/kcp_latest/ikcp.c:469-1145 | An operation keeps all pieces within an MTU below 2^30 and all numbers within 32 bits if and only if it does not lower the MTU below a piece queued or in flight or set it to 2^30 or more |
| `KcpDatagrams.NothingStranded` | senior/2.2_udp-kcp-quic/kcp_latest/ikcp.c:1230-1243 | Raising the MTU below 2^30, and any change of it below that while nothing is queued or in flight, leaves no piece too large |
| `Wire.StaysExactly` | senior/2.2_udp-kcp-quic/kcp_latest/ikcp.c:1093-1104 | While the MTU and the segments are below 2^30 and the room is at least the MTU, a packing pass leaves the room if and only if some single segment exceeds it |
| `KcpDatagrams.OverrunExactly` | senior/2.2_udp-kcp-quic/kcp_latest/ikcp.c:1093-1104 | While the MTU and the pieces are below 2^30, a flush writes beyond its work buffer, then of `(mtu + 24) * 3` bytes, if and only if some piece that it sends exceeds it with its header |
| `KcpDatagrams.EveryRunLight` | senior/2.2_udp-kcp-quic/kcp_latest/ikcp.c:1230-1243 | In every run that sets no MTU of 2^30 or more, the MTU and the pieces stay below 2^30 |
| `KcpDatagrams.SendableStaysInside` | senior/2.2_udp-kcp-quic/kcp_latest/ikcp.c:963-1121 | In the situation of `EveryFlushFits`, which has an MTU below 2^30, a flush stays inside its work buffer |
| `KcpDatagrams.LoweredMtuOverruns` | senior/2.2_udp-kcp-quic/kcp_latest/ikcp.c:1230-1243 | After create, update, a send of one full piece and `ikcp_setmtu(50)` it does: a 1400-byte segment for a 222-byte buffer |
| `KcpDatagrams.WrappedRoomOverruns` | senior/2.2_udp-kcp-quic/kcp_latest/ikcp.c:1230-1243 | After create, update, `ikcp_setmtu(1431655742)` and a send of one byte it does, with every piece within the MTU: the size of the work buffer wraps to 2 |
| `KcpDatagrams.LargeMtuOverruns` | senior/2.2_udp-kcp-quic/kcp_latest/ikcp.c:1094-1099 | For every MTU from 2^30 on some run of sends, after which every piece is within the MTU, makes a flush leave what `int` sums and its buffer allow |
| `KcpDatagrams.SafeMtuExactly` | senior/2.2_udp-kcp-quic/kcp_latest/ikcp.c:1094-1099 | Hence an MTU keeps every flush of pieces within it inside `int` sums and the work buffer if and only if it is below 2^30 |
| `KcpTiming.NothingBefore` | senior/2.2_udp-kcp-quic/kcp_latest/ikcp.c:1190-1226 | If `ikcp_check` answers t, `ikcp_update` at any time before t, modulo 2^32, sends nothing, leaves everything but the clock's current time alone, and finds no segment due; the answer is at most `interval` ahead |
| `KcpTiming.SomethingAt` | senior/2.2_udp-kcp-quic/kcp_latest/ikcp.c:1153-1178 | At t itself a flush or a retransmission is due, unless t is a full `interval` ahead |
| `KcpTiming.NextFlush` | senior/2.2_udp-kcp-quic/kcp_latest/ikcp.c:1153-1178 | An update flushes exactly if it is the first, or the time for the next flush has come or lies more than 10 s ahead; the following flush is then due 1 to `interval` ms ahead: one interval after the time for this one if that is still to come and was kept to within an interval, else one interval from now |
| `KcpTiming.NoDrift` | senior/2.2_udp-kcp-quic/kcp_latest/ikcp.c:1166-1177 | So the cadence does not drift: while updates come less than an interval late, the n-th flush is due exactly n intervals after the first, however they fall |
| `KcpTimers.EveryRunTimers` | senior/2.2_udp-kcp-quic/kcp_latest/ikcp.c:550-565 | In every run from creation, whatever the network delivers and the application calls: `rx_rto` lies in [30, 60000], `probe_wait` is 0 or in [7000, 120000], and every segment sent n <= 16 times has a timeout of at least 30 ms and at most 60000 * 2^(n-1), and is due that long, or up to 7.5 s longer, after it was last sent |
| `KcpTimers.EveryRunMinimum` | senior/2.2_udp-kcp-quic/kcp_latest/ikcp.c:562-564 | In every such run `rx_rto` is at least `rx_minrto`, as long as no `ikcp_nodelay` lifts that above the timeout in use |
| `KcpTimers.SmoothEstimate` | senior/2.2_udp-kcp-quic/kcp_latest/ikcp.c:550-565 | For round trips below 2^28 ms nothing overflows: the estimate moves an eighth of the way to the measurement, the deviation a quarter of the way to their distance (the first measurement is taken over, with half of it as deviation), neither past its goal, and `rx_rto` is the estimate and four deviations, or one `interval` if that is more, between `rx_minrto` and 60000 |
| `KcpTimers.NoTimeoutBefore` | senior/2.2_udp-kcp-quic/kcp_latest/ikcp.c:1065-1076 | A segment is not sent for a timeout before its own timeout has passed since it was last sent, and is when it is due |
| `KcpTimers.SentOnce` | senior/2.2_udp-kcp-quic/kcp_latest/ikcp.c:1059-1088 | A segment just sent is not due again in the same millisecond, unless it was sent for its timeout while fast acknowledgements asked for it as well |
| `KcpTimers.DueAtOnce` | senior/2.2_udp-kcp-quic/kcp_latest/ikcp.c:1065-1076 | For later transmissions: a segment sent for its timeout is due again at once if and only if its new timeout is 0 or above 2^31 |
| `KcpTimers.SixteenthTimeout` | senior/2.2_udp-kcp-quic/kcp_latest/ikcp.c:1069-1076 | Doubling reaches that: a segment first sent at a timeout of 60 s and again whenever it is due is, with its sixteenth timeout, due at once |
| `KcpTimers.AsksWhenDue` | senior/2.2_udp-kcp-quic/kcp_latest/ikcp.c:977-1019 | A flush asks for the peer's window if and only if that is closed and the probe timer has run out, and sets the timer to half as long again, at most 120 s; the timer starts at 7 s with the first flush that finds the window closed and is off with the first that finds it open; it announces its own window if and only if a probe or a reopened window asked for that |
| `KcpCongestion.EveryRunCong` | senior/2.2_udp-kcp-quic/kcp_latest/ikcp.c:882-904 | With the MTU fixed, every run keeps `ssthresh >= 2` and `(cwnd-1)*mss < incr < (cwnd+1)*mss` in 32-bit arithmetic |
| `KcpCongestion.EveryRunFromCreate` | senior/2.2_udp-kcp-quic/kcp_latest/ikcp.c:234-296 | So it is in every run from creation on |
| `KcpCongestion.StepCong` | senior/2.2_udp-kcp-quic/kcp_latest/ikcp.c:882-1144 | Every operation keeps that relation |
| `KcpCongestion.GrowKeeps` | senior/2.2_udp-kcp-quic/kcp_latest/ikcp.c:883-903 | Growth keeps the relation, never shrinks `cwnd` and never lifts it past `rmt_wnd` |
| `KcpCongestion.InputOpens` | senior/2.2_udp-kcp-quic/kcp_latest/ikcp.c:882-904 | An input opens the window if and only if it moves `snd_una` and `cwnd` is below `rmt_wnd`: below `ssthresh` by exactly one segment; from there on `incr` by `mss*mss/incr + mss/16`, and `cwnd` to the least number of segments that holds it once that is one more; never past `rmt_wnd` |
| `KcpCongestion.FlushCongKeeps` | senior/2.2_udp-kcp-quic/kcp_latest/ikcp.c:1123-1144 | A flush leaves `cwnd >= 1` and `ssthresh >= 2`, and keeps the relation if and only if it does not set, for fast retransmission, a window whose bytes exceed 32 bits |
| `KcpEndpoint.IkcpCb.constructor` | senior/2.2_udp-kcp-quic/kcp_latest/ikcp.c:234-296 | The new block, field by field |
| `KcpEndpoint.IkcpCb.Send` | senior/2.2_udp-kcp-quic/kcp_latest/ikcp.c:469-544 | Queue and return value in place equal the specification function, -1 for a negative length |
| `KcpEndpoint.IkcpCb.PeekSize` | senior/2.2_udp-kcp-quic/kcp_latest/ikcp.c:441-463 | The loop over the queue computes the size of the front message, or -1 |
| `KcpEndpoint.IkcpCb.Recv` | senior/2.2_udp-kcp-quic/kcp_latest/ikcp.c:358-435 | State, return value and bytes of receive and peek, with each error code |
| `KcpEndpoint.IkcpCb.MoveToQueue` | senior/2.2_udp-kcp-quic/kcp_latest/ikcp.c:413-425 | The drain loop in place |
| `KcpEndpoint.IkcpCb.Merge` | senior/2.2_udp-kcp-quic/kcp_latest/ikcp.c:383-409 | The merge loop hands out the front message and removes it unless peeking |
| `KcpEndpoint.IkcpCb.ParseUna` | senior/2.2_udp-kcp-quic/kcp_latest/ikcp.c:600-613 | The loop drops exactly the prefix below `una` |
| `KcpEndpoint.IkcpCb.ShrinkBuf` | senior/2.2_udp-kcp-quic/kcp_latest/ikcp.c:567-575 | `snd_una` follows the head of `snd_buf` |
| `KcpEndpoint.IkcpCb.ParseAck` | senior/2.2_udp-kcp-quic/kcp_latest/ikcp.c:578-597 | The loop removes exactly the acknowledged segment, if it is in flight |
| `KcpEndpoint.IkcpCb.ParseFastack` | senior/2.2_udp-kcp-quic/kcp_latest/ikcp.c:616-638 | The loop counts a skip on exactly the earlier, not later sent segments |
| `KcpEndpoint.IkcpCb.GrowAcks` | senior/2.2_udp-kcp-quic/kcp_latest/ikcp.c:649-672 | The acknowledgement array is doubled until it is large enough, contents kept |
| `KcpEndpoint.IkcpCb.AckPush` | senior/2.2_udp-kcp-quic/kcp_latest/ikcp.c:644-677 | One acknowledgement is appended to the list kept in the growing array |
| `KcpEndpoint.IkcpCb.InsertItem` | senior/2.2_udp-kcp-quic/kcp_latest/ikcp.c:702-720 | The backward search inserts into the reorder buffer or drops a repeat |
| `KcpEndpoint.IkcpCb.ParseData` | senior/2.2_udp-kcp-quic/kcp_latest/ikcp.c:690-750 | Window test, insertion and drain |
| `KcpEndpoint.IkcpCb.InputOne` | senior/2.2_udp-kcp-quic/kcp_latest/ikcp.c:795-872 | One segment, every command |
| `KcpEndpoint.IkcpCb.GrowWindow` | senior/2.2_udp-kcp-quic/kcp_latest/ikcp.c:883-903 | Growth of the congestion window in place |
| `KcpEndpoint.IkcpCb.Input` | senior/2.2_udp-kcp-quic/kcp_latest/ikcp.c:756-907 | The whole input over raw bytes: new state and return value -1, -2, -3 or 0 on all inputs |
| `KcpEndpoint.EncodeSeg` | senior/2.2_udp-kcp-quic/kcp_latest/ikcp.c:913-924 | Writes the 24 header bytes of a segment behind what is in the buffer |
| `KcpEndpoint.IkcpCb.FlushAcks` | senior/2.2_udp-kcp-quic/kcp_latest/ikcp.c:963-973 | One packet per pending acknowledgement, starting a new datagram whenever the MTU would be passed |
| `KcpEndpoint.IkcpCb.FlushProbes` | senior/2.2_udp-kcp-quic/kcp_latest/ikcp.c:999-1019 | Window probe and window announcement packets, in this order |
| `KcpEndpoint.IkcpCb.MoveToBuf` | senior/2.2_udp-kcp-quic/kcp_latest/ikcp.c:1027-1049 | Pieces enter flight in order while the window allows, freshly numbered |
| `KcpEndpoint.IkcpCb.FlushSeg` | senior/2.2_udp-kcp-quic/kcp_latest/ikcp.c:1090-1114 | One segment in the pass: state, packet, counters, dead link |
| `KcpEndpoint.IkcpCb.FlushData` | senior/2.2_udp-kcp-quic/kcp_latest/ikcp.c:1055-1115 | The pass over everything in flight |
| `KcpEndpoint.IkcpCb.UpdateCwnd` | senior/2.2_udp-kcp-quic/kcp_latest/ikcp.c:1123-1144 | Congestion window after fast retransmission or loss |
| `KcpEndpoint.IkcpCb.Flush` | senior/2.2_udp-kcp-quic/kcp_latest/ikcp.c:938-1145 | The whole flush: the new state and the exact bytes given to the output callback, one buffer per datagram |
| `KcpEndpoint.IkcpCb.Update` | senior/2.2_udp-kcp-quic/kcp_latest/ikcp.c:1153-1178 | The clock and, when due, the flush |
| `KcpEndpoint.IkcpCb.Check` | senior/2.2_udp-kcp-quic/kcp_latest/ikcp.c:1190-1226 | The next time to call update |
| `KcpEndpoint.IkcpCb.SetMtu` | senior/2.2_udp-kcp-quic/kcp_latest/ikcp.c:1230-1243 | The MTU is refused below 50; otherwise the work buffer is replaced by one of `(mtu + 24) * 3` bytes, computed in unsigned 32-bit arithmetic |
| `KcpEndpoint.IkcpCb.SetInterval` | senior/2.2_udp-kcp-quic/kcp_latest/ikcp.c:1245-1251 | The interval is clamped to 10..5000 |
| `KcpEndpoint.IkcpCb.SetNodelay` | senior/2.2_udp-kcp-quic/kcp_latest/ikcp.c:1253-1276 | Negative arguments leave their settings alone |
| `KcpEndpoint.IkcpCb.SetWndsize` | senior/2.2_udp-kcp-quic/kcp_latest/ikcp.c:1279-1290 | The receive window never goes below 128 |
| `KcpSettings.SettingsFollow` | senior/2.2_udp-kcp-quic/kcp_latest/ikcp.c:1230-1290 | Each value follows exactly the call that names it: the interval within 10 to 5000 ms, the receive window from 128 on, `rx_minrto` 30 ms in a no-delay mode and 100 ms otherwise; negative arguments, non-positive windows and an MTU below 50 leave theirs as they are |
| `RbEngine.RbTreeEngine.constructor` | Project1_KVstore/src/kvs_rbtree.c:364-380 | An empty engine: intact sentinel, empty map |
| `RbEngine.RbTreeEngine.LeftRotate` | Project1_KVstore/src/kvs_rbtree.c:48-68 | The pointer assignments equal the rotation of the whole heap, in any heap where the rotation is defined |
| `RbEngine.RbTreeEngine.RightRotate` | Project1_KVstore/src/kvs_rbtree.c:72-92 | The mirror image |
| `RbEngine.RbTreeEngine.InsertFixup` | Project1_KVstore/src/kvs_rbtree.c:95-140 | The loop ends with a red-black tree of the same entries, root blackened |
| `RbEngine.RbTreeEngine.Insert` | Project1_KVstore/src/kvs_rbtree.c:144-190 | A fresh node is linked in order with all heap invariants, or nothing changes if the key is present |
| `RbEngine.RbTreeEngine.Search` | Project1_KVstore/src/kvs_rbtree.c:315-340 | Stops at the node of the key, or at the one place where the key belongs |
| `RbEngine.RbTreeEngine.Set` | Project1_KVstore/src/kvs_rbtree.c:410-439 | Returns 1 and changes nothing if the key is present; otherwise 0 and the map gains exactly this binding; all heap invariants kept |
| `RbEngine.RbTreeEngine.Get` | Project1_KVstore/src/kvs_rbtree.c:443-452 | The bound value, or none |
| `RbEngine.RbTreeEngine.Exist` | Project1_KVstore/src/kvs_rbtree.c:492-501 | 0 exactly for present keys |
| `RbEngine.RbTreeEngine.Mod` | Project1_KVstore/src/kvs_rbtree.c:471-489 | Rebinds a present key and returns 0, otherwise 1 and no change |
| `RbEngine.RbTreeEngine.Del` | Project1_KVstore/src/kvs_rbtree.c:455-468 | Returns 0 or 1 by presence; the map loses exactly this key; acyclicity, parent agreement, key order, colours, black height and the sentinel all survive |
| `RbEngine.RbTreeEngine.Delete` | Project1_KVstore/src/kvs_rbtree.c:264-312 | Removes exactly the entry of the given node, also when the successor's key and value are swapped in and another node is spliced out |
| `RbEngine.RbTreeEngine.DeleteFixup` | Project1_KVstore/src/kvs_rbtree.c:193-261 | From one missing black on the hole to a red-black tree of the same entries, even when the hole is the sentinel itself |
| `RbEngine.RbTreeEngine.Successor` | Project1_KVstore/src/kvs_rbtree.c:32-44 | The in-order successor through child or parent pointers |
| `RbEngine.RbTreeEngine.Minimum` | Project1_KVstore/src/kvs_rbtree.c:16-21 | The leftmost node below the given one |
| `RbEngine.RbTreeEngine.Destroy` | Project1_KVstore/src/kvs_rbtree.c:383-406 | Deleting minima empties the tree, each round one node |
| `RbColors.Balanced` | Project1_KVstore/src/kvs_rbtree.c:95-140 | A red-black tree of n entries has height at most 2*log2(n+1) |
| `RbColors.SearchEnds` | Project1_KVstore/src/kvs_rbtree.c:315-340 | Where a search stops decides whether the key is in the map, and its value |
| `RbColors.PlantedEntries` | Project1_KVstore/src/kvs_rbtree.c:172-187 | A leaf planted where the search fell off keeps the order and adds exactly its binding |
| `RbColors.RecolourOk` | Project1_KVstore/src/kvs_rbtree.c:100-105 | Red uncle: recolouring moves the single violation two levels up |
| `RbColors.OuterOk` | Project1_KVstore/src/kvs_rbtree.c:113-115 | Outer case: one rotation ends the repair at the same black height |
| `RbColors.InnerOk` | Project1_KVstore/src/kvs_rbtree.c:108-111 | Inner case: a rotation turns it into the outer case |
| `RbDelete.Spliced` | Project1_KVstore/src/kvs_rbtree.c:275-288 | Splicing a node with at most one child out of the heap leaves the tree without it, and the sentinel's parent at the hole |
| `RbDelete.SplicedEntries` | Project1_KVstore/src/kvs_rbtree.c:269-271 | That removes exactly the node's own entry |
| `RbDelete.SuccessorEntries` | Project1_KVstore/src/kvs_rbtree.c:290-305 | Splicing the successor and swapping its entry up removes exactly the other node's entry |
| `RbDelete.RedSiblingOk` | Project1_KVstore/src/kvs_rbtree.c:199-205 | Red sibling: after the rotation the sibling is black, the deficit unchanged |
| `RbDelete.MovedUpOk` | Project1_KVstore/src/kvs_rbtree.c:207-209 | Black nephews: the deficit moves to the parent |
| `RbDelete.FarSideOk` | Project1_KVstore/src/kvs_rbtree.c:212-217 | Near red nephew: rotated to the far side, the deficit unchanged |
| `RbDelete.PaidOk` | Project1_KVstore/src/kvs_rbtree.c:219-222 | Far red nephew: one rotation pays the deficit |
| `SkipLevels.NextAfterInsert` | Project1_KVstore/src/kvs_skiptable.c:145-148 | Linking a node of any height into any position changes the next node of level i exactly at that level's recorded predecessor |
| `SkipLevels.NextOfInserted` | Project1_KVstore/src/kvs_skiptable.c:146 | The new node continues with what its predecessor pointed to |
| `SkipLevels.NextAfterRemove` | Project1_KVstore/src/kvs_skiptable.c:201-206 | Unlinking redirects exactly the links that led to the node |
| `SkipLevels.LevelIs` | Project1_KVstore/src/kvs_skiptable.c:58-63 | Walking level i from any node visits, in increasing order, exactly the later nodes higher than i |
| `SkipTable.InsertLinks` | Project1_KVstore/src/kvs_skiptable.c:145-148 | The pointer updates of an insertion give the links of the longer list, for every height |
| `SkipTable.RemoveLinks` | Project1_KVstore/src/kvs_skiptable.c:201-206 | The pointer updates of a removal give the links of the shorter list |
| `SkipTable.SeenBelow` | Project1_KVstore/src/kvs_skiptable.c:201-203 | A level's predecessor points at the node exactly on the node's own levels, so the loop stops at the right height |
| `SkipTable.SkipTableEngine.constructor` | Project1_KVstore/src/kvs_skiptable.c:74-91 | An empty table of one level |
| `SkipTable.SkipTableEngine.SearchNode` | Project1_KVstore/src/kvs_skiptable.c:53-71 | The descent stops at the first node not below the key and returns it exactly if it bears the key |
| `SkipTable.SkipTableEngine.SearchDecides` | Project1_KVstore/src/kvs_skiptable.c:65-70 | Where the descent stops decides membership in the map |
| `SkipTable.SkipTableEngine.RandomLevel` | Project1_KVstore/src/kvs_skiptable.c:44-50 | Any height from 1 to the maximum; the draws are unconstrained |
| `SkipTable.SkipTableEngine.Descend` | Project1_KVstore/src/kvs_skiptable.c:118-129 | `update[i]` is the last node of level i below the key, for each used level |
| `SkipTable.SkipTableEngine.LinkIn` | Project1_KVstore/src/kvs_skiptable.c:145-148 | The linking loop writes exactly the new node's levels |
| `SkipTable.SkipTableEngine.LinkOut` | Project1_KVstore/src/kvs_skiptable.c:201-206 | The unlinking loop, stopping where the C loop breaks |
| `SkipTable.SkipTableEngine.LowerLevel` | Project1_KVstore/src/kvs_skiptable.c:212-214 | The top used level is non-empty afterwards, unless it is level 1 |
| `SkipTable.SkipTableEngine.Set` | Project1_KVstore/src/kvs_skiptable.c:114-152 | For every drawn height: the same return values and map as the red-black engine, and a well-formed table with `count` the length of level 0 |
| `SkipTable.SkipTableEngine.Get` | Project1_KVstore/src/kvs_skiptable.c:155-160 | The bound value, or none |
| `SkipTable.SkipTableEngine.Mod` | Project1_KVstore/src/kvs_skiptable.c:163-178 | Rebinds a present key and returns 0, otherwise 1 and no change |
| `SkipTable.SkipTableEngine.Del` | Project1_KVstore/src/kvs_skiptable.c:181-218 | 0 or 1 by presence; the map loses exactly this key; the table stays well formed |
| `SkipTable.SkipTableEngine.Exist` | Project1_KVstore/src/kvs_skiptable.c:221-225 | 0 exactly for present keys |
| `SkipTable.SkipTableEngine.Destroy` | Project1_KVstore/src/kvs_skiptable.c:94-111 | The walk over level 0 frees every node once, then the head |
| `KvStore.FilterProtocol` | Project1_KVstore/src/kvstore.c:79-170 | The reply and the effect of every token list, with either engine behind the operations table |
| `KvStore.RepliesMean` | Project1_KVstore/src/kvstore.c:79-170 | From a `SET` or `MOD` answered OK until the next `DEL` or `MOD` of that key, `GET` is answered by exactly that value, `EXIST` and another `SET` by EXIST; from the start and from a `DEL` on, until the next `SET`, every request about the key is answered by NO EXIST and that `SET` by OK; malformed and unknown requests get their error replies |
| `KvStore.Serve` | Project1_KVstore/src/kvstore.c:79-170 | A run of requests against one engine gets the replies that a plain map would give |
| `KvStore.Interchangeable` | Project1_KVstore/src/kvstore.c:194-257 | Every run of requests gets identical replies from the red-black and the skip-list engine, whatever heights are drawn, and they mean what `RepliesMean` says |
| `KvStore.OnlyOwnKey` | Project1_KVstore/src/kvstore.c:95-164 | The reply to a request depends only on the earlier requests about the same key |
| `PoolSteps.FromCreate` | junior/04_threadpool/Threadpool.c:71-166 | Every interleaving of workers, pushers, signals and spurious wake-ups from creation keeps mutual exclusion, non-empty takes, work conservation, first-in first-out order, and the accounting of every task, with the number of workers asked for and at least one |
| `PoolSteps.EveryInterleaving` | junior/04_threadpool/Threadpool.c:71-166 | The same from any state that satisfies them |
| `PoolSteps.StepExclusive` | junior/04_threadpool/Threadpool.c:76-90 | At most one thread is inside a locked region |
| `PoolSteps.StepTakers` | junior/04_threadpool/Threadpool.c:77-88 | A worker that goes on to take finds a task although it may have waited |
| `PoolSteps.StepWork` | junior/04_threadpool/Threadpool.c:77-82 | While a worker is blocked, queued tasks do not outnumber awake idle workers, but for one just appended by a push that has not signalled yet |
| `PoolSteps.StepInOrder` | junior/04_threadpool/Threadpool.c:87-88 | What was pushed is what was taken followed by what is queued |
| `PoolSteps.StepAccounted` | junior/04_threadpool/Threadpool.c:87-92 | Every task taken is with exactly one worker or finished |
| `PoolSteps.BlockedMeansServed` | junior/04_threadpool/Threadpool.c:156-166 | Outside the moment between append and signal, a blocked worker implies that queued tasks are at most the awake idle workers |
| `PoolSteps.BehindExactly` | junior/04_threadpool/Threadpool.c:159-161 | In that moment the bound fails if and only if the push came while a worker was blocked and the queued tasks already took up every awake idle worker |
| `PoolSteps.NotBeforeTheSignal` | junior/04_threadpool/Threadpool.c:159-161 | In that moment the bound can fail: a concrete run |
| `PoolSteps.Progress` | junior/04_threadpool/Threadpool.c:74-93 | With a task queued and a worker not running one, some step other than an arrival, a spurious wake-up or a finish is possible: no deadlock |
| `PoolSteps.OldestFirst` | junior/04_threadpool/Threadpool.c:76-92 | A worker that gets the lock runs the oldest queued task |
| `PoolSteps.RunOnce` | junior/04_threadpool/Threadpool.c:87-92 | No task pushed once is ever with two workers, or queued or run again |
| `PoolTasks.TaskList.InsertTail` | junior/04_threadpool/Threadpool.c:17-28 | The walk to the tail appends the node, links of the whole list consistent |
| `PoolTasks.TaskList.Remove` | junior/04_threadpool/Threadpool.c:30-38 | Removes any node from anywhere, links consistent, its own links cleared |
| `PoolTasks.TaskList.TakeFirst` | junior/04_threadpool/Threadpool.c:87-88 | Takes the oldest node |
| `DnsNames.ParseName` | junior/06_dns/dns.c:215-242 | The recursive copying loop writes exactly the parsed text behind what is there and adds its length, touching nothing else |
| `DnsNames.ParsedMeaning` | junior/06_dns/dns.c:215-242 | Where a name reads by sections 3.1 and 4.1.4 of RFC 1035 and every pointer is to an offset below 256, the result is its dotted labels, with one more dot exactly when the name ends by a pointer to an empty name |
| `DnsNames.ReadsBack` | junior/06_dns/dns.c:215-242 | Hence, among such names, the dotted name comes out if and only if no label is followed by a pointer to an empty name |
| `DnsNames.FarPointerMisread` | junior/06_dns/dns.c:223-227 | A pointer to an offset of 256 or more is misread: a concrete message |
| `DnsNames.EmptyName` | junior/06_dns/dns.c:221-227 | An empty name never produces the extra dot |
| `DnsNames.StopsUnlessEndless` | junior/06_dns/dns.c:223-227 | Parsing fails to end if and only if 257 pointers follow one another from the start, or, what is the same, they never end |
| `DnsNames.SelfPointerLoops` | junior/06_dns/dns.c:223-227 | A pointer to itself is such a message |
| `DnsNames.ExtraDot` | junior/06_dns/dns.c:229-239 | The label a followed by a pointer to an empty name gives a and a dot: a concrete message |
| `DnsNames.LoopsIsEndless` | junior/06_dns/dns.c:223-227 | Coming back to an offset means pointers for ever |
| `DnsNames.EndsOtherwise` | junior/06_dns/dns.c:223-227 | Otherwise the chain ends after at most 257 pointers |
| `DnsQuestion.CreateQuestion` | junior/06_dns/dns.c:66-105 | Length plus two bytes always hold the length-prefixed tokens and a final zero (none is written when the hostname has no label) |
| `DnsQuestion.EncodedFits` | junior/06_dns/dns.c:71-74 | The encoding of any hostname, dots anywhere, is shorter than the space reserved |
| `DnsQuestion.TokensOfDotted` | junior/06_dns/dns.c:88-101 | Tokenising a dotted name gives back its labels |
| `DnsQuestion.TokensKeep` | junior/06_dns/dns.c:88-101 | Wherever the dots of a hostname are, its tokens are non-empty, without a dot, and hold every other byte in order |
| `DnsQuestion.ParseEncoded` | junior/06_dns/dns.c:219-240 | Parsing the encoded labels gives the dotted name, also for labels beyond 63 bytes, up to 191 |
| `DnsQuestion.EncodedIsName` | junior/06_dns/dns.c:91-101 | For labels of 1 to 63 bytes the encoding is a name by section 3.1 of RFC 1035 |
| `DnsQuestion.RoundTrip` | junior/06_dns/dns.c:66-242 | Encoding a hostname of such labels and parsing the result gives back the hostname and its length |
| `SplaySteps.TurnedRight` | senior/2.4_Ustack/nty_tree.h:86-90 | The rotation step keeps the two side trees, the middle tree and the in-order sequence |
| `SplaySteps.TurnedLeft` | senior/2.4_Ustack/nty_tree.h:92-96 | The mirror image |
| `SplaySteps.PassedRight` | senior/2.4_Ustack/nty_tree.h:98-102 | Linking the root to the right side tree keeps the in-order sequence and shrinks the middle tree |
| `SplaySteps.PassedLeft` | senior/2.4_Ustack/nty_tree.h:104-108 | The mirror image |
| `SplaySteps.Assembles` | senior/2.4_Ustack/nty_tree.h:110-115 | Assembling makes one tree of the same in-order sequence, also with empty sides |
| `SplayTree.NearestDecides` | senior/2.4_Ustack/nty_tree.h:131-133 | The key at the root decides membership once everything left of the root is below the key and everything right above it |
| `SplayTree.SplayHead.Splay` | senior/2.4_Ustack/nty_tree.h:203-234 | Terminates on the shrinking middle tree, keeps the in-order sequence, and leaves the sought key at the root or a neighbour of its place |
| `SplayTree.SplayHead.Find` | senior/2.4_Ustack/nty_tree.h:127-134 | Returns the element of the key, or NULL exactly if there is none |
| `SplayTree.SplayHead.Insert` | senior/2.4_Ustack/nty_tree.h:160-180 | Refines insertion into the ordered sequence; returns the present element of an equal key and changes nothing in order |
| `SplayTree.SplayHead.Remove` | senior/2.4_Ustack/nty_tree.h:183-200 | Removes exactly the element of the key, if any; returns its argument or NULL |
| `SplayTree.SplayHead.Next` | senior/2.4_Ustack/nty_tree.h:137-147 | The next element in order, or NULL |
| `SplayTree.SplayHead.MinMax` | senior/2.4_Ustack/nty_tree.h:276-279 | The first or the last element, or NULL |
| `SplayTree.SplayHead.SplayMinMax` | senior/2.4_Ustack/nty_tree.h:236-267 | Brings the extreme element to the root, order kept |
| `SplayTree.SplayHead.ForEach` | senior/2.4_Ustack/nty_tree.h:281-284 | Visits every element once, in order, although each step splays |
| `NtyRb.NtyRbHead.LeftRotate` | senior/2.4_Ustack/nty_tree.h:338-356 | The assignments with NULL tests equal the rotation of the whole heap |
| `NtyRb.NtyRbHead.RightRotate` | senior/2.4_Ustack/nty_tree.h:359-377 | The mirror image |
| `NtyRb.NtyRbHead.InsertColor` | senior/2.4_Ustack/nty_tree.h:404-444 | The loop ends with a red-black tree of the same order |
| `NtyRb.NtyRbHead.Insert` | senior/2.4_Ustack/nty_tree.h:593-619 | Inserts the element at its place with all heap invariants, or returns the present element of an equal key |
| `NtyRb.NtyRbHead.Find` | senior/2.4_Ustack/nty_tree.h:623-636 | The element of the key, or NULL exactly if there is none |
| `NtyRb.NtyRbHead.NFind` | senior/2.4_Ustack/nty_tree.h:640-657 | The first element not below the key, or NULL |
| `NtyRb.NtyRbHead.Next` | senior/2.4_Ustack/nty_tree.h:661-679 | The next element in order, or NULL |
| `NtyRb.NtyRbHead.MinMax` | senior/2.4_Ustack/nty_tree.h:704-716 | The first or the last element, or NULL |
| `NtyRb.NtyRbHead.ForEach` | senior/2.4_Ustack/nty_tree.h:730-733 | Visits every element once, in increasing order |
| `NtyRb.NtyRbHead.RemoveColor` | senior/2.4_Ustack/nty_tree.h:447-522 | From an explicit parent and a possibly NULL child, restores the black height with the same order |
| `NtyRb.NtyRbHead.Unlink` | senior/2.4_Ustack/nty_tree.h:529-584 | Takes the element out of the tree and reports the colour that was lost, in each of the three cases |
| `NtyRb.NtyRbHead.RemoveSuccessor` | senior/2.4_Ustack/nty_tree.h:533-571 | The two-child case: the successor node itself takes the removed node's place, links and colour |
| `NtyRb.NtyRbHead.Remove` | senior/2.4_Ustack/nty_tree.h:525-589 | Removes exactly the given element; all heap invariants kept |
| `RbLine.TakenOver` | senior/2.4_Ustack/nty_tree.h:553-564 | Moving a detached node into another's place gives the same tree with that node renamed |
| `RbLine.ZoomRenamed` | senior/2.4_Ustack/nty_tree.h:553-564 | Renaming inside the path to the hole is renaming at the node, so the repair can go on below the moved node |

## Left out

- KcpSystem.EveryStateOk: its runs, and with them the promises of `KcpSystem`, include flushes that write beyond the work buffer after a lowered or very large MTU; the C program is undefined from there on and the promises speak of the state the flush would leave. `KcpDatagrams.OverrunExactly` and `KcpDatagrams.SafeMtuExactly` say which flushes those are.
- KcpSystem.ReceivedIsPrefixOfSent: the same runs.
- KcpSystem.NoSegmentLost: the same runs.
- KcpSystem.FullQueueHasMessage: the same runs.
- KcpProgress.NeverStuck: the same runs; it is a possibility (some continuation finishes) and not liveness under a fair network, it counts without wrap-around, and updates in the continuation move their clock forward by at most 2^31 at a time.
- KcpWedge.TellableExactly: the same runs and the same reading of numbers.
- KcpRefinement.WrappedRunRefines: the same runs. Receive windows are configured up to 2^31 - 2^16 only; with a wider one the signed comparison of words cannot tell the end of the window from what lies before it. After a mistaken delivery it says nothing further.
- KcpRefinement.FreshRunRefines: asks that a piece comes at most 2^31 minus the receive window late, as a piece later than that, though not mistaken, is read as another number.
- KcpNearest.NearStateOk: the same runs.
- KcpStale.LateDeliveryBreaksPrefix: the run constructed in its proof sets no MTU, so no flush in it is one of those.
- KcpStale.LateReplyLosesSegment: the same.
- KcpRefinement.WrappedReceivedIsPrefixOfSent: the same runs; assumes that no delivery is mistaken; a caller can ensure that by bounding the lifetime of a datagram in the network. Some mistakes are harmless, so the condition is not necessary in each single run; `KcpStale.LateDeliveryBreaksPrefix` shows that it cannot be dropped.
- KcpRefinement.WrappedNoSegmentLost: the same runs and the same assumption; `KcpStale.LateReplyLosesSegment` shows that it cannot be dropped.
- KcpRefinement.WrappedFullQueueHasMessage: the same runs and the same assumption.
- KcpEndpoint.IkcpCb.Flush: requires that the C function stays inside its work buffer on this state; `KcpDatagrams.OverrunExactly` and `KcpDatagrams.SafeMtuExactly` say when it does. What it does beyond the buffer is undefined and not modelled.
- KcpEndpoint.IkcpCb.Update: the same requirement, when the call flushes.
- KcpEndpoint.IkcpCb.FlushData: the same requirement, for the segments that are sent.
- KcpEndpoint.IkcpCb.FlushSeg: the same requirement, if the segment is sent.
- KcpDatagrams.OverrunExactly: for an MTU and pieces below 2^30, which every run with MTUs below 2^30 keeps (`KcpDatagrams.EveryRunLight`); above, `int` sums overflow and no MTU is safe (`KcpDatagrams.LargeMtuOverruns`).
- KcpCongestion.EveryRunCong: at a fixed MTU, as a change of `mss` changes the unit of `incr`; the bytes of a full window must fit 32 bits (`FitsWord`: a segment within a UDP datagram and `(32767 + fastresend) * mss` below 2^32), since otherwise `mss * mss` or `cwnd * mss` can overflow.
- KcpCongestion.InputOpens: for segments within a UDP datagram, for the same reason.
- KcpReplies.BelowExactly: says nothing of a `una` half the number space behind, where some of what is in flight compares as below it and some as above; `KcpReplies.AckedExactly` says for every `una` what is taken, namely what compares as below at the front.
- KcpReplies.NewestIsNewest: asks that the numbers and times of one datagram's acknowledgements lie within half their space, as the comparison has no order otherwise.
- KcpIntake.InputReads: inputs below 2^31 bytes, the lengths that `(int)size` leaves as they are.
- KcpQueues.EveryRunKeeps: after a call that makes the receive window smaller, the bound on `rcv_buf` and `rcv_queue` is the widest window so far.
- KcpTimers.SmoothEstimate: round trips below 2^28 ms, three days; a peer that sends back a timestamp it never got can make the estimate overflow.
- KcpTimers.SentOnce: segments sent fewer than 16 times; `KcpTimers.DueAtOnce` covers later timeouts.
- RbEngine.RbTreeEngine.Destroy: empties the tree; the code also frees the sentinel and clears `nil` and `root`, after which the engine cannot be used.
- DnsNames.ParseName: requires that the parse ends, stays inside the message and fits the output; the code checks none of these. `DnsNames.StopsUnlessEndless` says when it ends.
- DnsNames.ReadsBack: among names whose pointers are all to offsets below 256; a farther pointer may by chance be read right, so for these only one way holds.
- DnsQuestion.RoundTrip: labels up to 191 bytes; a longer one would have its length byte read as a pointer. The 63-byte limit of RFC 1035 is not checked by the code.
- PoolSteps.BlockedMeansServed: says nothing about the moment between append and signal; `PoolSteps.BehindExactly` does.
- KCP: logging, allocator hooks, allocation failure, `ikcp_release`, `ikcp_waitsnd`, `ikcp_getconv`, NULL buffer arguments and the big-endian and unaligned variants of encoding.
- KCP: the segment fields `conv`, `cmd`, `wnd`, `una` and `len` that a queued segment carries are recomputed when it is sent, so queued segments do not store them; the two probe flags are two booleans; the four queue counters are unbounded.
- KCP: the circular linked lists of `ikcp.h` are sequences held by the control block; link pointers are not modelled there.
- The earlier `senior/2.2_udp-kcp-quic/src/ikcp.c` and the `test1/` copies of the engines.
- Red-black engine: NULL arguments, allocation failure, the freeing of memory (a removed node is garbage) and the in-order printing.
- Skip list: NULL arguments and allocation failure, the latter being the one way to leave `level` above the highest node; the seed and distribution of random heights (any height is allowed); `destroy` returns the freed nodes in order instead of freeing them, and the head pointer is not cleared.
- Key-value store: the array and hash engines, whose return codes for a missing key differ; the splitting of a request into tokens; sockets.
- `nty_tree.h`: elements are compared by an integer key in place of the `cmp` macro argument; `RB_PREV`, the reverse, resumable and removal-safe iterations, the `RB_AUGMENT` hook, `SPLAY_MINMAX` with argument 0 (which does not end) are left out.
- Worker pool: `nThreadPoolDestroy` and the `terminate` flag; creation failure; fairness of the mutex, so `PoolSteps.Progress` is the absence of deadlock and not that each worker gets a turn.
- DNS: request building, response parsing, sockets; the memory a question holds behind the final zero is unspecified.
- The user-space TCP stack, the coroutine library, io_uring, databases, web servers and all demonstration programs.
