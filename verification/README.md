# droplet.io: framing, write path and blocking queue

droplet.io carries length-framed RPC messages over epoll. This project models the parts of it whose
correctness shows only when they are put together, and proves what they are for:

- **A message packed at one end is the message received at the other.** `rpc_pack` and the two unpackers are
  methods on a message object and a byte buffer; `read` and `write` are answered by an arbitrary schedule of
  short transfers, EAGAIN, 0 and errors; `recv_buf` and `recv_data` are proved to take exactly the frame at the
  head of the stream under every schedule (`Codec`, `Framing`, `Nio`, `Buffer`, `Protocol`).
- **Bytes stay in order and none disappears.** A direct write, a parked remainder and the drain of the write queue are
  steps of a transition system (`WritePath`). Its invariants hold over every run; the methods of the channel
  and of the worker (`Channel`, `Worker`) are proved to make such runs, with the outcomes the kernel's answers decide. `EndToEnd` joins both ends,
  from a connection just accepted to the client's last receive.
- **Nobody waits without reason.** The bounded queue is a monitor with one mutex and one condition variable,
  for any set of threads, every interleaving and spurious wake-ups (`Monitor`); `ChannelMonitor` nests it under the
  channel's mutex, as the channel does. `Acceptor` shows, from new workers on, why one thread alone drains a queue.

Machine words are integers with explicit ranges; `|`, `&` and `<<` are defined bit by bit (`Bits`) and proved to be
the arithmetic the frame layout means. A schedule is a function from positions to answers; loops that wait out EAGAIN
are proved to end when EAGAIN is not answered for ever (`Nio.Fair`). `send_buf` ends against any schedule.

## What the code does not do

Where a property holds only under a condition, the condition is proved exact:

- A message comes back from one-call unpacking as sent if and only if its JSON has at most 65535 bytes and no binary part
  is left over in the receiver. From two-call unpacking it does under the same condition, and besides when the JSON's
  size is a multiple of 65536, so that none of it is sent, and the receiver already held that very text
  (`Codec.RoundTrip`). `send_data` of a longer text writes a truncated frame followed by zeros.
- Unpacking and packing again gives the same frame if and only if the frame carries JSON and ends in the packer's tail
  (`Codec.InverseRoundTrip`): the tail is never read, and a message without JSON cannot be packed.
- `recv_data` and `recv_buf` with `rpc_unpack` agree if and only if the frame has room for its tail and either carries
  JSON or finds none in the receiver (`Framing.TwoPhaseRefinesOneShot`). Without that room the unsigned length of the
  binary part in `rpc_unpack` wraps and its copy runs past the frame, where `rpc_unpack_data` copies nothing: the
  13-byte frame of `Codec.ShortFrame` does it with one byte of JSON.
- `send_buf` writes past queued bytes. It keeps the order for every answer of the kernel if and only if no byte was queued
  when it started, unless all the bytes in question are one and the same (`WritePath.SendOrderExactly`). A packed frame
  never is, so for replies the queue must be empty (`EndToEnd.ReplyOrderExactly`). `EndToEnd.RepliesSwap` is a run from
  the start of a connection, with a kernel that fails nothing, in which two replies are received in the wrong order.
- Against given answers of the kernel the sends of a callback keep the order and lose nothing if and only if each starts
  with an empty queue or is answered EAGAIN first, and none meets a hard error (`WritePath.CarefulExactly`). A kernel
  that goes on refusing bytes once it has refused some is such (`WritePath.StickyIsPatient`).
- Parking arms output and keeps input if and only if the channel's last event was a read, that is, for sends made from
  `onMessage`; the one other case is a channel that has seen no event and already had both armed
  (`WritePath.ParkingArmsExactly`). The repository's README.md promises reads and writes safe for many threads; the code
  does not keep that for a send from elsewhere. Before the first event of a connection the ADD that should arm output is
  refused and the parked bytes wait unannounced (`WritePath.ParkedTooEarly`); after a drain output is armed and input is
  disarmed, so no further frame is reported (`WritePath.ParkedAfterDrain`).
- In no reachable state is a producer asleep together with a consumer, given room for one value at least; with a bound
  of 0 there is such a state
  (`Monitor.NeverBothAsleep`, `Monitor.BothAsleepWithoutRoom`).
- A channel hangs for good if and only if some call enters its queue with the guard of the wait loop true
  (`ChannelMonitor.HangsExactly`, `ChannelMonitor.HungForEver`). Checking the size before popping prevents it with one
  drainer (`ChannelMonitor.CheckThenPop`) and not with two: `ChannelMonitor.TwoDrainersHang` is a run from the start that hangs.

Preconditions the code needs and does not check: sizes below 2^31, length fields of at most four bytes, announced lengths not
below the head, a JSON length within the frame and, for `rpc_unpack`, room for the tail behind it.

## Model

| member | source | states |
|---|---|---|
| Bits.OrDisjoint | include/channel.h:72-74 | or-ing words that share no bit position is adding them |
| Bits.Low8 | include/protocol.h:74-90 | `x & 0xFF`, bit by bit, is the remainder modulo 256 that the frame layout stores |
| Bits.Join16 | include/protocol.h:133-134 | or-ing a byte shifted by 8 into a 16-bit field is the positional value of the two bytes |
| Bits.Join32 | include/protocol.h:136-139 | or-ing four shifted bytes is the positional value of the four |
| Bits.LittleTurn | include/channel.h:74 | one turn of the little-endian loop appends one more significant base-256 digit, within 32 bits |
| Bits.BigTurn | include/channel.h:72 | one turn of the big-endian loop appends one less significant base-256 digit, within 32 bits |
| Bits.LittleIsReversedBig | include/channel.h:70-76 | the little-endian value of bytes is the big-endian value of the reversed bytes |
| Codec.FrameBytes | include/protocol.h:69-99 | every byte of a packed frame: all fields low byte first, the length being that of the whole |
| Codec.DefaultFrame | include/protocol.h:38-55 | the sixteen bytes of a message nothing was set in |
| Codec.Layout | include/protocol.h:73-99 | where each field of a packed frame lies, and that the frame announces its own size |
| Codec.FieldsTaken | include/protocol.h:133-204 | the fields each unpacker takes from the bytes of any frame with room for its JSON |
| Codec.RoundTrip | include/protocol.h:65-101 | exactly when one-call, and exactly when two-call unpacking of a packed message gives it back |
| Codec.InverseRoundTrip | include/protocol.h:129-163 | packing what was unpacked reproduces the frame byte for byte iff it has JSON and the packer's tail |
| Codec.BinLengths | include/protocol.h:155-195 | the unsigned and the signed length of the binary part differ exactly on a frame without room for its tail |
| Codec.TwoUnpackersAgree | include/protocol.h:186-205 | one-call unpacking stays within the frame iff there is room for the tail; both leave the same message iff so and the frame has JSON or none was held |
| Codec.ShortFrame | include/protocol.h:155-161 | a 13-byte frame that two calls unpack and one call reads past |
| Codec.EncodeInjective | include/protocol.h:65-101 | equal frames come from equal messages |
| Nio.IoRead | include/nio.h:49-69 | the bytes consumed are the next of the stream, in place, under every schedule; 0 iff all arrived; the error is the kernel's last |
| Nio.IoWrite | include/nio.h:71-94 | what reaches the wire is a prefix of the buffer; 0 iff it is all of it, and iff no hard error was answered; the error is the kernel's last |
| Buffer.Buf.Resize | include/buffer.h:35-48 | keeps the first min(old, new) bytes and zero-fills the rest |
| Buffer.Buf.Copy | include/buffer.h:49-52 | afterwards the buffer holds exactly the given bytes |
| Buffer.Buf.Clean | include/buffer.h:29-33 | the buffer is empty |
| Buffer.Buf.constructor | include/buffer.h:19-21 | the given number of zero bytes |
| Protocol.RpcMessage.constructor | include/protocol.h:38-55 | default field values of a new message |
| Protocol.RpcMessage.PackageSize | include/protocol.h:61-63 | at least the frame size, and equal to it iff the JSON fits 16 bits |
| Protocol.RpcMessage.RpcPack | include/protocol.h:65-101 | the return code for each check; on success the buffer starts with the frame and is untouched behind it |
| Protocol.RpcMessage.RpcPackHead | include/protocol.h:103-127 | the same checks; the first ten bytes of the frame and nothing else |
| Protocol.RpcMessage.RpcUnpack | include/protocol.h:129-163 | the return code for each check; the fields left by each outcome, stale binary part included |
| Protocol.RpcMessage.RpcUnpackHead | include/protocol.h:165-184 | the head fields, or none of them |
| Protocol.RpcMessage.RpcUnpackData | include/protocol.h:186-205 | the body fields under the head already held, with the signed binary length |
| Protocol.BodyFields | include/protocol.h:192-203 | the parts taken from any body: the JSON its first bytes announce, and behind it what the head's size leaves |
| Protocol.BodyOfFrame | include/protocol.h:186-205 | head fields followed by the body of a frame make the frame unpacked in two |
| Protocol.RpcMessage.RecvHead | include/protocol.h:207-216 | ten bytes taken off the stream into the head fields |
| Protocol.RpcMessage.RecvBody | include/protocol.h:217-229 | the rest of the frame is read and unpacked, or nothing of the body is changed |
| Protocol.RpcMessage.RecvData | include/protocol.h:207-230 | success takes exactly the message at the head of the stream; on an unbroken connection the schedule does not matter, and the code for a cut head or body and for an empty body is stated |
| Protocol.RpcMessage.SendData | include/protocol.h:232-242 | a prefix of the frame, with zeros after it for JSON beyond 16 bits, reaches the wire; 0 iff all of it, and iff no hard error is answered; else the kernel's last error; -1 without JSON |
| Protocol.ReceiveReplies | examples/tcp_cli_main.cpp:20-42 | receives into fresh messages return the messages of the stream, in order, under every fragmentation |
| Framing.FieldByWidth | include/channel.h:69-76 | the number a field of each width stands for, under either coding |
| Framing.AdjustmentIsSignedSum | include/channel.h:77 | the wrapping addition of the adjustment is the signed sum iff that sum is a 32-bit word |
| Framing.CodingIsReversal | include/channel.h:70-76 | the two codings read a field and its reversal as the same number |
| Framing.DeframeExact | include/channel.h:59-90 | a receive yields a frame iff it is what the stream starts with, and leaves exactly the rest |
| Framing.PartOfFrameIsCut | include/channel.h:63-88 | part of a frame, none of it included, is never taken for a frame or for a rejected head |
| Framing.NoFrameExactly | include/channel.h:63-88 | a receive is cut iff the head is missing or the stream is part of a longer frame, and rejects iff the head announces nothing behind it |
| Framing.SelfDelimiting | include/channel.h:59-90 | any concatenation of frames is received as those frames, in order, for any setting |
| Framing.PrefixFree | include/channel.h:67-81 | no frame is a proper prefix of another |
| Framing.UniqueDecomposition | include/channel.h:67-81 | a concatenation of frames has one decomposition |
| Framing.UniqueMessages | include/protocol.h:65-101 | equal streams of packed messages come from equal lists of messages |
| Framing.RpcFrames | include/nio.h:32-38 | with the default setting, frame boundaries are RPC message boundaries |
| Framing.TwoPhaseRefinesOneShot | include/protocol.h:207-230 | head-then-body receive cuts the stream as `recv_buf` does, and gives the message of `rpc_unpack` iff there is room for the tail and JSON or none was held |
| Framing.ShortFrameReceived | include/protocol.h:207-230 | a stream on which they part although the frame carries JSON |
| Framing.ReceiveAll | include/protocol.h:207-230 | back-to-back packed messages are received as exactly those, leaving the rest of the stream |
| Epoll.EpollCtx.Ctl | include/epoll_util.h:69 | ADD takes effect on a new descriptor only, MOD on a registered one only; the call is logged and no other descriptor affected |
| Epoll.EpollCtx.AddEvent | include/epoll_util.h:51-71 | the mask is the union of both event sets, bit by bit; ADD iff the event value is 0, and so effective or refused |
| Epoll.EpollCtx.ModifyEvent | include/epoll_util.h:73-86 | the mask of a registered descriptor is replaced |
| Epoll.WaitEvents | include/epoll_util.h:113-127 | exactly one event for each descriptor ready for anything, in the order reported, read iff it is readable |
| Epoll.EventsClassify | include/epoll_util.h:118-124 | a descriptor ready for both is handed on as readable only; one ready for neither not at all |
| Channel.ConcurrentQueue.Size | include/concurrent_queue.h:20-23 | the number of queued values |
| Channel.ConcurrentQueue.Enqueue | include/concurrent_queue.h:24-31 | appends, or waits iff the queue is full |
| Channel.ConcurrentQueue.Pop | include/concurrent_queue.h:32-41 | removes and returns the first value, or waits iff there is none |
| Channel.EioChannel.WriteQueueSize | include/channel.h:91-94 | the number of parked buffers |
| Channel.EioChannel.EnqueueWriteMsg | include/channel.h:95-99 | appends to the write queue, or waits iff it is full |
| Channel.EioChannel.PopWriteMsg | include/channel.h:100-103 | takes the first parked buffer, or waits iff there is none |
| Channel.EioChannel.WriteDirectly | include/channel.h:34-45 | the loop writes a prefix, as long and ending as the kernel's answers decide, against any schedule |
| Channel.EioChannel.SendBuf | include/channel.h:27-58 | the step on wire, queue and interest set; its last answer decides how it ends, its first whether anything goes out directly; only parking queues and calls epoll_ctl, once; it waits iff it must park on a full queue |
| Channel.EioChannel.Park | include/channel.h:49-53 | the remainder is queued and output armed through `add_event` with the channel's last event, or the thread waits iff the queue is full |
| Channel.EioChannel.ReadLength | include/channel.h:67-77 | the shift-and-or loop computes the positional value of the field, adjusted modulo 2^32 |
| Channel.EioChannel.RecvHead | include/channel.h:60-77 | the head is taken off the stream and its announced length computed |
| Channel.EioChannel.RecvBody | include/channel.h:81-89 | the buffer is head plus the following bytes of the stream |
| Channel.EioChannel.RecvBuf | include/channel.h:59-90 | success takes exactly the frame at the head of the stream; on an unbroken connection the schedule does not matter, and the code for a cut head or body and for an empty frame is stated |
| Channel.IoCtx.GetChan | include/channel.h:115-125 | the table gains at most this descriptor; an existing channel is returned unchanged, a new one is empty and bounded; growth to twice the index changes no entry |
| Channel.IoCtx.DistinctChannels | include/channel.h:120-123 | in a valid table distinct descriptors have distinct channels and queues |
| WritePath.Conservation | include/channel.h:34-57 | over every run, errors included, accepted bytes are those on the wire, queued or lost, and queued buffers are suffixes of accepted ones |
| WritePath.CarefulKeepsOrder | include/channel.h:34-53 | a step that loses nothing and does not overtake the queue keeps wire plus queue equal to what was accepted |
| WritePath.SendSideRefinement | include/io_worker.h:85-98 | over every careful run the wire is a prefix of what was accepted, and all of it after a drain |
| WritePath.SendOrderExactly | include/channel.h:35-53 | a send keeps the order under every kernel answer iff no byte is queued, or all bytes are the same |
| WritePath.Overtaking | include/channel.h:35-53 | a run from the start in which the second of two buffers goes out first |
| WritePath.DirectEnds | include/channel.h:35-57 | the last answer decides how a direct write ends, the first whether any byte goes out |
| WritePath.DirectUnbroken | include/channel.h:37-56 | a direct write gives up bytes iff a hard error is among its answers |
| WritePath.UnbrokenSends | include/channel.h:37-56 | without a hard error no send gives up bytes |
| WritePath.CarefulExactly | include/channel.h:35-53 | the sends of a callback are careful iff each starts with an empty queue or is refused first, without a hard error |
| WritePath.OneReplyIsPatient | include/channel.h:35-53 | a single reply on an empty queue is sent carefully by any kernel that does not fail |
| WritePath.StickyIsPatient | include/channel.h:47-53 | a kernel that goes on refusing once it has refused answers so |
| WritePath.SendArms | include/channel.h:46-53 | only a send that parks touches the interest set, by one call |
| WritePath.DrainDisarms | include/io_worker.h:98 | a drain leaves a watched descriptor armed for input only, by one MOD |
| WritePath.InterestInvariant | include/io_worker.h:69-98 | over every run input stays armed, output is armed iff bytes are queued, and every epoll_ctl after the ADD is a MOD of a registered descriptor |
| WritePath.EveryRun | include/io_worker.h:69-98 | conservation and the interest invariant in every state reachable from a new connection |
| WritePath.ParkingArmsExactly | include/epoll_util.h:51-71 | when parking leaves both input and output armed |
| WritePath.ParkedTooEarly | include/channel.h:51-53 | a send from elsewhere before the first event leaves its bytes queued with output disarmed and the ADD refused |
| WritePath.ParkedAfterDrain | include/channel.h:51-53 | a send from elsewhere after a drain leaves its bytes queued with input disarmed |
| Worker.IoWorker.GetChan | include/io_worker.h:38-42 | the channel of a descriptor, tied to this worker's epoll instance; a new one is empty and bounded |
| Worker.IoWorker.WatchConn | include/io_worker.h:44-47 | the descriptor is registered for input |
| Worker.IoWorker.SendOne | include/io_worker.h:83 | one reply is one Send step, with the outcome the kernel's answers decide, or waits iff it must park on a full queue |
| Worker.IoWorker.Reply | include/io_worker.h:83 | the callback's sends are a run of Send steps, one a reply, in order, each as the kernel's answers decide; it waits iff more of them park than there is room, at the first of these |
| Worker.IoWorker.Drain | include/io_worker.h:86-98 | every queued message is offered to the kernel, in order, whatever became of those before; the queue is empty afterwards and output disarmed; all is delivered iff the kernel does not fail meanwhile |
| Worker.IoWorker.ReceiveFrame | include/io_worker.h:73-74 | the frame at the head of the stream; on an unbroken connection what a missing or empty one leaves of the stream |
| Worker.IoWorker.OnReadable | include/io_worker.h:72-84 | one frame is taken and answered, or there was none or the connection broke; what is left of the stream in each case |
| Worker.IoWorker.HandleOn | include/io_worker.h:69-99 | the event makes a legal run of the transition system on this connection, to its end or to where its thread waits on a full queue; a write event leaves input armed and output not |
| Worker.IoWorker.HandleEvent | include/io_worker.h:59-100 | the same from the descriptor, leaving every other registration alone |
| Worker.IoWorker.HandleEvents | include/io_worker.h:49-102 | a batch of events makes each connection run from the state it was in, undisturbed by the others, until a callback waits: replies, outcomes and losses as for one event |
| Worker.NothingAbandoned | include/io_worker.h:69-98 | without a hard error meanwhile the run of an event gives up no byte |
| Worker.HandledCarefully | include/io_worker.h:69-98 | the run of a write event is careful iff no hard error is answered; that of a read event iff its sends are patient |
| Acceptor.IOAcceptor.constructor | include/io_acceptor.h:32-43 | new workers share nothing and own nothing yet: the partition holds from the start |
| Acceptor.IOAcceptor.OwnersSpread | include/io_acceptor.h:76 | any N descriptors in a row belong to N different workers |
| Acceptor.IOAcceptor.Dispatcher | include/io_acceptor.h:75-81 | the channel is set up and registered with worker fd modulo N only; a new one is empty, bounded and tied to that worker |
| Acceptor.IOAcceptor.NewConnection | include/io_acceptor.h:61-68 | a connection just accepted is in the state after the first step of every run |
| Acceptor.IOAcceptor.Serve | include/io_worker.h:59-100 | a worker's handling of an event registers nothing and keeps the partition of descriptors |
| Acceptor.IOAcceptor.SingleDrainer | include/io_acceptor.h:75-81 | no descriptor is watched by two workers and no channel is in two workers' tables |
| Monitor.InvRun | include/concurrent_queue.h:24-41 | mutual exclusion, the bound, no lost wake-up and a legal history, in every reachable state |
| Monitor.Linearizable | include/concurrent_queue.h:20-41 | every interleaving is a sequential FIFO history with each thread's own results; pushed is popped plus queued; every size returned is the difference at that moment; the bound holds |
| Monitor.RealTimeOrder | include/concurrent_queue.h:24-41 | cutting a run anywhere, the effects after the cut are those of calls that had none before it: real-time order is respected |
| Monitor.NoStuck | include/concurrent_queue.h:24-41 | in every reachable state a sleeper's guard is true or a notification is due; no thread can go on iff every unfinished call sleeps, and then each guard is true |
| Monitor.WakesInVain | include/concurrent_queue.h:26-28 | a sleeper woken without reason finds its guard true and sleeps again, nothing changed |
| Monitor.NeverBothAsleep | include/concurrent_queue.h:24-41 | with room for one value no producer and consumer are asleep at once, in any reachable state |
| Monitor.BothAsleepWithoutRoom | include/concurrent_queue.h:17-41 | with no room they are, in this run |
| ChannelMonitor.HungForEver | include/channel.h:95-103 | a thread that must wait holding the channel mutex stops every call on the channel for good |
| ChannelMonitor.HangsExactly | include/channel.h:91-103 | in every run from the start that happens iff some call enters with its guard true |
| ChannelMonitor.NobodySleeps | include/channel.h:91-103 | otherwise no thread sleeps holding the channel mutex |
| ChannelMonitor.CheckThenPop | include/io_worker.h:86-87 | one drainer that checks first, and enqueues below the bound: nobody ever sleeps, in any run from the start |
| ChannelMonitor.ChannelProceeds | include/channel.h:91-103 | an unhung channel with an unfinished call always has a thread that can go on |
| ChannelMonitor.WholeCall | include/channel.h:91-103 | a call made alone with its guard false returns after its one effect on the queue |
| ChannelMonitor.TwoDrainersHang | include/io_worker.h:86-87 | with two drainers that check first, a run from the start hangs the channel |
| EndToEnd.SendMessage | examples/tcp_server_main.cpp:14-16 | packing a reply and sending it is a send of its frame, with the outcome the kernel's answers decide, waiting iff it must park on a full queue |
| EndToEnd.RequestArrives | examples/tcp_cli_main.cpp:20-34 | what `send_data` put on a new connection is that message to `recv_data` and to `recv_buf` with `rpc_unpack`, and nothing is left |
| EndToEnd.NothingElseArrives | include/io_worker.h:85-98 | at every moment what can be received from the wire is a prefix of the messages sent |
| EndToEnd.EverythingArrives | include/io_worker.h:85-98 | once the queue is drained exactly the messages sent are received and the stream is empty |
| EndToEnd.ReplyOrderExactly | include/channel.h:35-53 | a packed reply keeps the order under every kernel answer iff the queue is empty |
| EndToEnd.RepliesSwap | include/channel.h:35-53 | a run from the start, without errors, after which two replies are received in the wrong order |
| EndToEnd.SendAll | examples/tcp_server_main.cpp:7-20 | a callback's replies, packed and sent in turn, are the run of Send steps of their frames |
| EndToEnd.SendAndDrain | include/io_worker.h:72-98 | a callback and the write event after it put all that was ever sent on the wire |
| EndToEnd.EnterCallback | include/io_worker.h:69-83 | a read event up to the callback takes one frame and continues the connection's run |
| EndToEnd.Exchange | include/io_worker.h:72-98 | after any careful run, a callback's messages packed, sent, drained and received: a client gets exactly all, in order, and nothing is left |
| EndToEnd.Conversation | include/io_worker.h:59-99 | from a connection just accepted, each request read and answered: a client gets exactly the answers, in order, against every kernel that does not fail |
| EndToEnd.Session | include/io_acceptor.h:32-81 | the same from new workers, with nothing assumed of any state |

## Left out

- Sockets, epoll and their set-up: `read`, `write` and `epoll_ctl` are the model's `Socket` and `EpollCtx`; descriptors are not closed or reused.
- UDP (`io_read_udp`, `send_udp_msg`, `recv_udp_msg`): rests on datagram semantics of the kernel.
- JSON parsing: JSON is opaque bytes.
- Thread start and shutdown, `_quit`, and the acceptor running before its worker list is filled: the model starts with a fixed, non-empty list of workers.
- Liveness of edge-triggered delivery: nothing is claimed about a queued byte being sent when no further event is handled.
- The application callback is a function from a frame to the buffers it sends in reply; what else it does is not modelled.
- Memory a `write` reads and buffers in the write queue are byte sequences: no other reference to a queued buffer exists in the code.
- Worker.IoWorker.HandleEvents: takes the events of one wait on distinct descriptors; the outer loop that waits again, and a descriptor of 0 or below among them, are in HandleEvent only.
- A call that waits for another thread ends here by saying so, since a method has to end. What becomes of it is in `Monitor` and, under the channel's mutex, in `ChannelMonitor.HungForEver`; a call that need not wait has exactly the effect stated (`ChannelMonitor.WholeCall`).
- EndToEnd.SendAll: called with room for what is to park; a callback that waits is in `Worker.IoWorker.Reply`. The same holds of SendAndDrain and Exchange.
- EndToEnd.Conversation: one reply a request, with the drain before the next request, as a client that waits for each reply makes it; several replies a request are in Exchange, which asks more of the kernel. The callback is written out there, packing included; `Worker.IoWorker.HandleEvent` calls the channel's `onMessage`.
- Buffer.Buf.Resize: a failed allocation is not modelled; a null base is the empty array.
- `TcpServer`, `del_event`, `SelfRpcMsg`, logging: thin or unused.
