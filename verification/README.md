# lnetlib: verified model

lnetlib is a framed request/response protocol over a byte stream, on top of Asio's buffers. This project models the
protocol and the buffer code under it in Dafny and proves what they are for. `dafny verify dfyconfig.toml` checks
everything.

The layers, from the wire up:

- **Buffers** (`Buffers.dfy`, `BuffersIterators.dfy`): buffers are address ranges of one memory. Copying between buffer
  sequences and the random access iterator are methods with the code's cursors and loops, proved against the flat
  view `AddressAt`, the address of byte p of the whole sequence.
- **Stream buffer** (`StreamBuffers.dfy`): `basic_streambuf` as a class over one array with its get and put positions,
  proved to be a byte queue with a size limit. A thrown `length_error` is a result `ok == false`.
- **Composed operations** (`ReadOps.dfy`, `WriteOps.dfy`): `read_streambuf_op`, `consuming_buffers` and `write_op`, for
  every way a transport can cut up reads and writes.
- **Streams** (`Messages.dfy`, `Streams.dfy`): typed fields, `ostream` and `istream`.
- **Protocol** (`Links.dfy`, `Peers.dfy`): one direction of a connection, and two connected peers, as transition
  systems. Each handler or mutex-guarded block is one step; a step that is not possible leaves the state as it is. A
  run is any sequence of steps, and the main results hold for all runs.
- **Connection** (`Connections.dfy`): `connection` as a class. Each method's contract says which step of `Links` and
  `Peers` it makes.
- **Objects and protocol together** (`Pipes.dfy`): a connection's send side with its `write_op` and another's receive
  side with its `read_streambuf_op`, for any number of packages: whatever the transport does to them is a run of `Links`.
- **Socket stream buffer** (`SocketStreamBuffers.dfy`) and **server** (`Servers.dfy`).

Some fields and logs (`dispatched`, `completed`, `sent`, `delivered`, `broken`, ghost fields) record history only: no step
of `Links` or of a class depends on them. In `Peers`, `events` is also the packages the application holds and may answer, with their provenance in `origins`. The
results of `Peers` are stated for the left peer; `RightPeer` turns them round. A few methods have no counterpart in
the code and only put its operations together, to state results about sequences of calls: `Perform` and its variants,
`AdvanceBySteps`, `AdvanceTwice`, `AdvanceTo`, `Carry`, `ReceiveFrame`, `Exchange` and its halves, `SendManyTimes`, `FlushTwice`,
`FlushRepeats`, `FailedPrepareCanCorrupt`, `Happen`, `Serve`, `ServeOn`, `StoppedForGood`, `RestartAcceptsNothing`, and in `Pipes`
all but the two classes.

## Where the code does less than its documentation or its interface says

Each is proved with its exact condition or outcome; the members are in the table below.

- **Callbacks.** lnetlib's own README.md (line 53) says a callback is called for a response to its stream. Both peers
  number their streams from 0 and the lookup sees only the uid, so a stream created by the other peer is taken for a
  response when a callback with the same number is waiting, and only then (`MisdirectedExactly`, `CallbackArgument`,
  `UidsCollide`). A response reaches its callback if and only if nothing was handed to that callback before
  (`ResponseRouting`): always, when no stream of the other peer's own came first under its uid
  (`PairingWithoutCollision`), and so in every run in which the other peer only answers (`RequestResponse`).
- **Strings.** `read_string` goes through a C string and so stops at a NUL; `write_string` truncates the length prefix
  but not the string (`MessageRoundTrip`, `CursorAfterRead`). `write_data_chunk` truncates both (`ChunkAfterWrite`).
  The C string is made from an array without a terminator and cut to the size afterwards, so for a string without a NUL
  the scan reads past the array (`ScanPastTheArray`); what is there does not show in the result.
- **A throwing `prepare`** has already moved the bytes and may have damaged them (`FailedShiftKeepsContents`,
  `FailedPrepareCanCorrupt`).
  A throwing character write has changed nothing (`StreamBuf.Overflow`).
- **A failed write** leaves the connection's send side locked for good (`FrozenAfterFailure`).
- **A failed flush** of the socket stream buffer keeps what was already sent in the put area, to be sent again
  (`OverflowBuffered`, `Sync`, `FlushTwice`, `FlushRepeats`).
- **Restarting a server.** `start` after `stop` opens an acceptor and creates threads, but the `io_service` is never
  reset, so no connection is accepted any more (`StoppedForGood`, `RestartAcceptsNothing`).
- **`fixed_count` with -1** starts no thread when the processor count is reported as 0 (`InitServiceThreads`).

## Model

| member | source | states |
|---|---|---|
| `Links.Delivery` | lnetlib/lnetlib/connection.cpp:81-232 | in every run of one direction (any dispatches, any pieces written and read, failures anywhere): the packages delivered are a prefix of those dispatched, in order, each once; the bytes on the wire are a prefix of the frames in dispatch order; completed ++ in flight ++ queued is what was dispatched |
| `Links.FrozenAfterFailure` | lnetlib/lnetlib/connection.cpp:185-188 | after a failed write, in every continuation, no byte is written and no package completed, and the queue grows by exactly what is dispatched; and the lock is set without a write under way only after a failed write |
| `Links.StuckForever` | lnetlib/lnetlib/connection.cpp:178-232 | a lock that is set while no write is outstanding is never released, and everything dispatched is queued: from the lock alone |
| `Links.ReceiverNeverStops` | lnetlib/lnetlib/connection.cpp:103-133 | with streams that carry their 16-byte header and no read failure, the size/body alternation never takes the zero-length branch, so a read is always outstanding |
| `Links.EverythingArrives` | lnetlib/lnetlib/connection.cpp:81-232 | from any state without a failure, every schedule of steps that move bytes has bounded length, and when none is possible any more all that was dispatched has been delivered |
| `Links.NothingIsLost` | lnetlib/lnetlib/connection.cpp:81-232 | the same after any run from the initial state without failures |
| `Links.Quiescent` | lnetlib/lnetlib/connection.cpp:190-203 | an unlocked sender and an empty wire mean that nothing is still owed to the receiver |
| `Links.StepKeepsInv` | lnetlib/lnetlib/connection.cpp:103-232 | every handler and every dispatch keeps: lock held exactly while a write is outstanding or after one has failed, an empty queue when unlocked, sent = frames delivered ++ bytes held ++ bytes on the wire, delivered a prefix of dispatched |
| `Links.SentIsPrefix` | lnetlib/lnetlib/connection.cpp:178-232 | the bytes sent are a prefix of the concatenated frames of all packages dispatched |
| `Links.FirstFrame` | lnetlib/lnetlib/connection.cpp:115-118 | the first eight bytes of a stream of frames give the length of the first body, and the bytes after them are that body |
| `Links.FrameBytes` | lnetlib/lnetlib/connection.cpp:157-176 | the bytes of a frame: the size in eight bytes, lowest first, then the stream's bytes |
| `Links.CompleteBody` | lnetlib/lnetlib/connection.cpp:123-135 | a body read to its announced size is the next package dispatched |
| `Links.LastWriteKeepsSender` | lnetlib/lnetlib/connection.cpp:190-203 | completing a write starts the next package or releases the lock, and the bytes sent are then exactly whole frames |
| `Links.DispatchKeepsInv` | lnetlib/lnetlib/connection.cpp:213-232 | a dispatch is queued behind what is waiting, or starts a write, without disturbing what is under way |
| `Peers.ArrivesAsSent` | lnetlib/lnetlib/ostream.cpp:31-101 | over whole runs of two peers: the i-th package to arrive is the i-th stream the other peer sent, byte for byte; each stream is dispatched once, whatever the number of sends |
| `Peers.ArrivesAsWritten` | lnetlib/lnetlib/ostream.cpp:31-101 | end to end, in every run: each package that arrives is the header of a stream opened at the other peer followed by all bytes written to that stream before its first send, in order, as far as its buffer takes them; and a step sent it |
| `Peers.StreamsAsWritten` | lnetlib/lnetlib/ostream.h:92-128 | in every run, every stream is the header it was opened with and the bytes written to it before its first send, and it is sent if and only if a later step sends it |
| `Peers.WritesAddUp` | lnetlib/lnetlib/ostream.h:104-128 | the same from any state with an unsent stream on, over any steps of both peers |
| `Peers.WriteAppends` | lnetlib/lnetlib/ostream.h:104-108 | a write that fits appends its bytes to that stream, and changes nothing else |
| `Peers.SendDispatches` | lnetlib/lnetlib/ostream.cpp:91-101 | the first send dispatches the stream's bytes, whoever opened the conversation; any other send changes nothing |
| `Peers.RespondOpens` | lnetlib/lnetlib/istream.cpp:99-109 | a response to any package received is a new stream with that package's command and uid |
| `Peers.ResponseIsSent` | lnetlib/lnetlib/istream.cpp:99-109 | a response that is opened, written to and sent is dispatched: command and uid of the package answered, then the bytes |
| `Peers.OutIsALink` | lnetlib/lnetlib/connection.cpp:81-232 | in every run of two peers, what happens to one direction is the run of Links made of the sends, transport steps and failures of that direction |
| `Peers.ResponseRouting` | lnetlib/lnetlib/connection.cpp:135-152 | in every run, also when both peers create streams: every response carries uid and command of a stream created here, and it is handed to that stream's callback if and only if there is one and nothing was handed to it before; otherwise it goes to received |
| `Peers.PairingWithoutCollision` | lnetlib/lnetlib/connection.cpp:135-152 | in every run: unless a stream the other peer created came first under the same uid, the first package for a stream with a callback, and no other, is handed to its callback |
| `Peers.RequestResponse` | lnetlib/lnetlib/connection.cpp:135-152 | if the other peer only answers, then in every reachable state each package that arrives carries the command of the create_stream call with its uid, the first one for a stream with a callback was handed to exactly that callback, and every other went to received |
| `Peers.EveryAnswerArrives` | lnetlib/lnetlib/connection.cpp:81-232 | after any run of two peers in which nothing failed, every schedule of transport steps that move bytes has bounded length, and when none is possible any more, every stream sent by either peer has arrived, and every callback whose stream was answered has been called |
| `Peers.SchedulesEnd` | lnetlib/lnetlib/connection.cpp:81-232 | the same from every state in which nothing has failed: bounded schedules, and at the end everything arrived and every answered callback called |
| `Peers.RightPeer` | lnetlib/lnetlib/connection.cpp:31-232 | every run has a mirror image in which the peers have changed places, so what is proved of the left peer in every run holds of the right one |
| `Peers.FiresOnce` | lnetlib/lnetlib/connection.cpp:139-148 | in every run, also when both peers create streams, no callback fires twice and each only for a package with its own uid |
| `Peers.CallbackArgument` | lnetlib/lnetlib/connection.cpp:139-148 | in every run, a callback is called with a package of its own conversation, carrying its command, or else with one of a stream the other peer created under the same uid, carrying that one's command |
| `Peers.MisdirectedExactly` | lnetlib/lnetlib/connection.cpp:139-148 | an incoming package is handed to a callback of another conversation if and only if it belongs to a stream the other peer created and a callback registered here under the same uid has not fired |
| `Peers.UidsCollide` | lnetlib/lnetlib/connection.cpp:31-35 | a run in which that happens, for any two commands: both peers create their first stream |
| `Peers.UidBookkeeping` | lnetlib/lnetlib/connection.h:119-137 | before the counter wraps: the next uid is the number of create_stream calls, is not pending, and the pending callbacks are those registered and not yet matched, each under its own uid |
| `Peers.NewUidIsFree` | lnetlib/lnetlib/connection.h:119-137 | no registration overwrites a pending one |
| `Peers.StepKeeps` | lnetlib/lnetlib/connection.cpp:123-232 | every step of either peer keeps the invariant of both links and both peers |
| `Peers.HeaderRoundTrip` | lnetlib/lnetlib/istream.cpp:31-38 | command and uid read by istream are those written by ostream, whatever follows |
| `Peers.HeaderBytes` | lnetlib/lnetlib/ostream.h:92-102 | the bytes of the header: command, then uid, eight bytes each, lowest first |
| `Peers.RespondKeeps` | lnetlib/lnetlib/istream.cpp:99-109 | a response carries the command and uid of the package it answers, so it names the same create_stream call |
| `Peers.DeliverKeepsPending` | lnetlib/lnetlib/connection.cpp:139-152 | after a delivery the pending callbacks are again those registered and not fired |
| `Peers.DeliverKeepsFired` | lnetlib/lnetlib/connection.cpp:139-152 | a callback that fires was registered under the package's uid and has not fired before |
| `Connections.CreatePackage` | lnetlib/lnetlib/connection.cpp:157-176 | the regions of a package, concatenated, are the frame of the stream's bytes |
| `Connections.Connection.constructor` | lnetlib/lnetlib/connection.cpp:31-35 | unlocked, counter 0, no callbacks, one size read outstanding: the initial state of the protocol |
| `Connections.Connection.CheckError` | lnetlib/lnetlib/connection.cpp:53-79 | emits closed exactly for no_such_file_or_directory and ssl_short_read, error exactly for any other error but operation_aborted; true only without an error |
| `Connections.Connection.CreateStream` | lnetlib/lnetlib/connection.h:119-127 | a stream with the next uid and the header written; the counter moves on, modulo 2^64; the state is that of Peers.CreateStream |
| `Connections.Connection.CreateStreamWithCallback` | lnetlib/lnetlib/connection.h:129-137 | the same, with the callback registered under the stream's uid |
| `Connections.Connection.SendPackage` | lnetlib/lnetlib/connection.cpp:178-211 | locks and starts the write: Links.SendPackage |
| `Connections.Connection.Dispatch` | lnetlib/lnetlib/connection.cpp:213-232 | queues behind a held lock, otherwise starts the write: Links.OnDispatch; the write consists of the frame's bytes |
| `Connections.Connection.WriteHandler` | lnetlib/lnetlib/connection.cpp:180-204 | on success the next queued package or unlock (Links.OnWritten); on an error the write is over and the lock stays set (Links.OnWriteError) |
| `Connections.Connection.ReadPackageSizeHandler` | lnetlib/lnetlib/connection.cpp:103-121 | error or zero bytes: no read; otherwise a body read of the size decoded, as Links.OnReadComplete |
| `Connections.Connection.ReadPackageBodyHandler` | lnetlib/lnetlib/connection.cpp:123-155 | error or zero bytes: no read and nothing delivered; otherwise the package is routed under the uid its stream has read (Peers.DeliverUnder), the next size read is outstanding, and with a whole header the stream has the package's command, uid and payload (Peers.Deliver) |
| `Connections.Connection.Route` | lnetlib/lnetlib/connection.cpp:139-152 | callback under the uid, erased, or the received signal: Peers.DeliverUnder |
| `Connections.Carry` | lnetlib/lnetlib/connection.cpp:81-211 | one package through the code's own buffers, written and read in any pieces: what comes out is what went in, and the stream is left at the next frame; it does come out when nothing fails |
| `Connections.ReceiveFrame` | lnetlib/lnetlib/connection.cpp:81-121 | reading a size and then a body of that size takes exactly one frame off the stream |
| `Pipes.Transport` | lnetlib/lnetlib/connection.cpp:81-232 | any number of packages between two new connections through the code's own objects (connections, write_op, read_streambuf_op, stream buffers), for everything the transport may take, give or fail at: the packages the receiver hands on are the first of those sent, in order, byte for byte, and all of them when nothing failed and nothing is under way |
| `Pipes.Drive` | lnetlib/lnetlib/connection.cpp:81-232 | from any state of those objects, whatever the transport does is a run of Links with one step for each input, the step of that kind: failures only where the transport fails, bytes moved where there are any; and the packages delivered on the way are routed as Pipes.Handed, each to callback or received |
| `Pipes.SimulationMeans` | lnetlib/lnetlib/connection.cpp:81-232 | such a run has the dispatches of the streams sent, and is free of failures when the transport is, so the results about runs of Links, with and without failures, hold of the objects |
| `Pipes.TransportAll` | lnetlib/lnetlib/connection.cpp:81-232 | without failures, however many bytes the transport moves each time and in whatever order, it comes to an end, and everything sent has then been handed on |
| `Pipes.Drain` | lnetlib/lnetlib/connection.cpp:81-232 | the same from any state of the objects in which nothing has failed, with the routing |
| `Pipes.HandedRoutes` | lnetlib/lnetlib/connection.cpp:139-152 | of any number of packages with whole headers, the i-th is handed to the callback registered under its uid if it is the first with that uid, and goes to received otherwise |
| `Pipes.HandedLeaves` | lnetlib/lnetlib/connection.cpp:139-148 | and the callbacks still registered are those under whose uid none of them came |
| `Pipes.Outgoing.Dispatch` | lnetlib/lnetlib/connection.cpp:213-232 | the dispatch slot and the async_write it starts are Links.OnDispatch |
| `Pipes.Outgoing.Accepts` | lnetlib/lnetlib/connection.cpp:178-211 | bytes taken by the transport are the next bytes of the frame in flight; with the last of them the handler starts the next write or unlocks: the sender's part of Links.Wrote |
| `Pipes.Outgoing.Fails` | lnetlib/lnetlib/connection.cpp:183-188 | a failed write ends with the lock set: Links.OnWriteError |
| `Pipes.Incoming.Arrives` | lnetlib/lnetlib/connection.cpp:103-155 | bytes handed over by the transport are added to the read under way; with the last of them the handler moves on as Links.OnReadComplete, and a complete body is routed as Peers.DeliverUnder |
| `Pipes.Incoming.Fails` | lnetlib/lnetlib/connection.cpp:103-133 | a failed read ends the receive loop and delivers nothing |
| `Pipes.Hand` | lnetlib/lnetlib/connection.cpp:103-155 | the receive side's step on n bytes of the wire is Links.Step on ReadSome(n), and a package it completes is routed |
| `Pipes.Accept` | lnetlib/lnetlib/connection.cpp:178-211 | the send side's step on n bytes is Links.Step on WriteSome(n) |
| `ReadOps.TransferExactly` | lnetlib/lnetlib/asio/completion_condition.hpp:88-94 | 0 when failed or done, otherwise the smaller of what is left and 65536 |
| `ReadOps.ReadStreambufOp.constructor` | lnetlib/lnetlib/asio/impl/read.hpp:617-623 | the first read asks for as much as condition and buffer allow, so all of a short read on an empty buffer, such as the eight size bytes; prepare does not throw |
| `ReadOps.ReadStreambufOp.OnReadSome` | lnetlib/lnetlib/asio/impl/read.hpp:624-633 | the bytes read are appended; the handler is called exactly on an error, on zero bytes, or when all wanted bytes are there; otherwise the next read asks for min(max(512, spare capacity), condition, room) |
| `ReadOps.ReadStreambufOp.Continue` | lnetlib/lnetlib/asio/impl/read.hpp:627-633 | the decision between finishing and reading on; prepare never throws |
| `ReadOps.ReadPiece` | lnetlib/lnetlib/asio/impl/read.hpp:611-635 | each answered read makes progress or completes |
| `ReadOps.AsyncReadExactly` | lnetlib/lnetlib/asio/impl/read.hpp:611-635 | for every schedule of non-empty short reads: exactly the bytes wanted (`size`, or as many as the buffer may still hold) appended in order and none of the next frame taken, or an error at the end of the stream; it completes within one piece more than it wants bytes |
| `WriteOps.ConsumingBuffers.constructor` | lnetlib/lnetlib/asio/detail/consuming_buffers.hpp:166-177 | all bytes of all buffers pending |
| `WriteOps.ConsumingBuffers.NextBuffer` | lnetlib/lnetlib/asio/detail/consuming_buffers.hpp:234-237 | the first buffer is dropped, and only that |
| `WriteOps.ConsumingBuffers.RemoveBytes` | lnetlib/lnetlib/asio/detail/consuming_buffers.hpp:228-244 | exactly the given number of bytes gone from the front, across buffer boundaries |
| `WriteOps.ConsumingBuffers.RemoveEmpty` | lnetlib/lnetlib/asio/detail/consuming_buffers.hpp:246-253 | no byte gone, and at the end exactly when nothing is pending |
| `WriteOps.ConsumingBuffers.Consume` | lnetlib/lnetlib/asio/detail/consuming_buffers.hpp:226-254 | pending bytes lose their first n; at the end exactly when none is left |
| `WriteOps.ConsumingBuffers.Window` | lnetlib/lnetlib/asio/detail/consuming_buffers.hpp:57-126 | the buffers offered to one write are the first min(max_size, all) pending bytes |
| `WriteOps.WriteOp.constructor` | lnetlib/lnetlib/asio/impl/write.hpp:137-181 | the first write offers the first 65536 bytes of all buffers |
| `WriteOps.WriteOp.OnWriteSome` | lnetlib/lnetlib/asio/impl/write.hpp:182-191 | the handler is called exactly on an error, on zero bytes, or when all is written; otherwise the next 65536 bytes are offered |
| `WriteOps.Answer` | lnetlib/lnetlib/asio/impl/write.hpp:171-193 | each answered write puts the next bytes on the wire |
| `WriteOps.AsyncWrite` | lnetlib/lnetlib/asio/impl/write.hpp:171-193 | for every schedule of partial writes the wire holds a prefix of the buffers' bytes; success means all of them; it completes within as many answers as bytes, plus one |
| `StreamBuffers.StreamBuf.constructor` | lnetlib/lnetlib/asio/basic_streambuf.hpp:131-141 | empty, put area of min(max, 128) |
| `StreamBuffers.StreamBuf.Resize` | lnetlib/lnetlib/asio/basic_streambuf.hpp:325 | old bytes kept, capacity at least the length |
| `StreamBuffers.StreamBuf.MoveDown` | lnetlib/lnetlib/asio/basic_streambuf.hpp:312-317 | contents moved to the start of the array, and what then lies between the old positions |
| `StreamBuffers.StreamBuf.Reserve` | lnetlib/lnetlib/asio/basic_streambuf.hpp:299-337 | throws if and only if size() + n > max_size(); otherwise contents kept across shift and growth, with the new positions; when it throws, positions kept and contents as AfterFailedShift |
| `StreamBuffers.StreamBuf.Prepare` | lnetlib/lnetlib/asio/basic_streambuf.hpp:204-209 | throws if and only if size() + n > max_size(); otherwise room for n bytes and contents kept |
| `StreamBuffers.StreamBuf.Commit` | lnetlib/lnetlib/asio/basic_streambuf.hpp:223-229 | the contents grow by the first min(n, prepared) prepared bytes if that count fits an int; the put position moves by the count narrowed to int otherwise, and the positions stay in order exactly when it has not moved below the get position |
| `StreamBuffers.StreamBuf.FillAndCommit` | lnetlib/lnetlib/asio/basic_streambuf.hpp:204-229 | bytes stored in the prepared region and committed are appended |
| `StreamBuffers.StreamBuf.Consume` | lnetlib/lnetlib/asio/basic_streambuf.hpp:238-245 | the first min(n, size) bytes are dropped if that count fits an int; the get position moves by the count narrowed to int otherwise |
| `StreamBuffers.StreamBuf.Underflow` | lnetlib/lnetlib/asio/basic_streambuf.hpp:254-265 | the next byte without taking it, end of file exactly when empty |
| `StreamBuffers.StreamBuf.ReserveForOne` | lnetlib/lnetlib/asio/basic_streambuf.hpp:278-289 | makes room for 128 more, or up to the maximum; fails if and only if the buffer is at its maximum size, and then has changed nothing |
| `StreamBuffers.StreamBuf.Overflow` | lnetlib/lnetlib/asio/basic_streambuf.hpp:274-297 | appends the character, or throws exactly at the maximum size with get position 0 and everything untouched |
| `StreamBuffers.StreamBuf.SPutC` | lnetlib/lnetlib/asio/basic_streambuf.hpp:274-297 | a character write appends, or fails exactly at the maximum size |
| `StreamBuffers.StreamBuf.SBumpC` | lnetlib/lnetlib/asio/basic_streambuf.hpp:254-265 | a character read takes the first byte of the queue |
| `StreamBuffers.StreamBuf.SPutN` | lnetlib/lnetlib/ostream.h:104-108 | appends as many bytes as there is room for |
| `StreamBuffers.StreamBuf.SGetN` | lnetlib/lnetlib/istream.h:132-140 | takes as many bytes as there are, in order |
| `StreamBuffers.StreamBuf.Data` | lnetlib/lnetlib/asio/basic_streambuf.hpp:182-186 | the contents |
| `StreamBuffers.StreamBuf.ReadSizeHelper` | lnetlib/lnetlib/asio/basic_streambuf.hpp:344-350 | within the limit and within max_size; 0 only if either is exhausted |
| `StreamBuffers.StreamBuf.PreferredSize` | lnetlib/lnetlib/asio/basic_streambuf.hpp:344-350 | all that limit and room allow, or else the larger of 512 and the spare capacity |
| `StreamBuffers.Perform` | lnetlib/lnetlib/asio/basic_streambuf.hpp:204-337 | any sequence of prepare/fill/commit, consume, character writes and character reads, with counts that fit an int, gives the same results, throws at the same operation and leaves the same contents as a plain queue with a size limit |
| `StreamBuffers.PerformOne` | lnetlib/lnetlib/asio/basic_streambuf.hpp:204-337 | one operation on the buffer is one operation on the queue, and throws exactly when it does not fit |
| `StreamBuffers.FailedShiftKeepsContents` | lnetlib/lnetlib/asio/basic_streambuf.hpp:312-331 | a throwing prepare keeps the contents if and only if they repeat with the get position as period; in particular if nothing was moved or the areas do not overlap |
| `StreamBuffers.FailedPrepareCanCorrupt` | lnetlib/lnetlib/asio/basic_streambuf.hpp:312-331 | a buffer of at most four bytes that holds 1 2 3 at get position 1 holds 2 3 3 after a prepare of two bytes, which throws |
| `Buffers.OffsetMeans` | lnetlib/lnetlib/asio/buffer.hpp:442-453 | the same bytes from an offset on, none past the end; offsets add up |
| `Buffers.LimitMeans` | lnetlib/lnetlib/asio/buffer.hpp:718-728 | the same bytes up to a limit |
| `Buffers.BufferSize` | lnetlib/lnetlib/asio/buffer.hpp:385-396 | the length of the flat view |
| `Buffers.CopyBuffer` | lnetlib/lnetlib/asio/buffer.hpp:1295-1304 | memcpy of the shorter length |
| `Buffers.CopyPiece` | lnetlib/lnetlib/asio/buffer.hpp:2203-2211 | one piece between two current buffers takes the whole copy exactly that many bytes further |
| `Buffers.CopySequence` | lnetlib/lnetlib/asio/buffer.hpp:1693-1736 | terminates with min(target, source) bytes copied, whatever the buffer boundaries, empty and aliasing target buffers included |
| `Buffers.CopySequenceLimited` | lnetlib/lnetlib/asio/buffer.hpp:2186-2231 | the same with min(target, source, limit) |
| `Buffers.CopyToBuffer` | lnetlib/lnetlib/asio/buffer.hpp:1402-1421 | the same bytes and count as the general form on a one-buffer target |
| `Buffers.CopyFromBuffer` | lnetlib/lnetlib/asio/buffer.hpp:1573-1592 | the same bytes and count as the general form on a one-buffer source |
| `Buffers.CopyFromBufferLimited` | lnetlib/lnetlib/asio/buffer.hpp:2060-2065 | the same as the general limited form |
| `Buffers.CopyToBufferLimited` | lnetlib/lnetlib/asio/buffer.hpp:1879-1885 | the same as the general limited form |
| `Buffers.CopyMeans` | lnetlib/lnetlib/asio/buffer.hpp:1674-1692 | copying n bytes to a target without repetitions: flat target bytes below n are the flat source bytes, and no other byte of the memory changes |
| `Buffers.SameAddresses` | lnetlib/lnetlib/asio/buffer.hpp:1674-1692 | only the addresses copied matter, not how they are cut into buffers |
| `Buffers.PieceCopied` | lnetlib/lnetlib/asio/buffer.hpp:1709-1716 | a memcpy of the next n flat bytes is n more steps of the byte-by-byte copy |
| `BuffersIterators.BuffersIterator.Begin` | lnetlib/lnetlib/asio/buffers_iterator.hpp:127-144 | position 0, inside the first non-empty buffer or at the end |
| `BuffersIterators.BuffersIterator.End` | lnetlib/lnetlib/asio/buffers_iterator.hpp:147-163 | position = total size |
| `BuffersIterators.BuffersIterator.Copy` | lnetlib/lnetlib/asio/buffers_iterator.hpp:178-183 | same place |
| `BuffersIterators.BuffersIterator.Dereference` | lnetlib/lnetlib/asio/buffers_iterator.hpp:301-304 | the address of the flat byte at the position |
| `BuffersIterators.BuffersIterator.PositionDecides` | lnetlib/lnetlib/asio/buffers_iterator.hpp:307-310 | buffer and offset are a function of position_ alone, for any mix of operations, so comparing positions is sound |
| `BuffersIterators.BuffersIterator.ComparesPlaces` | lnetlib/lnetlib/asio/buffers_iterator.hpp:264-310 | two iterators of the same buffers are equal if and only if they are at the same offset of the same buffer, and ordered by buffer and offset |
| `BuffersIterators.BuffersIterator.Increment` | lnetlib/lnetlib/asio/buffers_iterator.hpp:313-333 | one flat byte further over any empty buffers; the assertion fails exactly at the end |
| `BuffersIterators.BuffersIterator.Decrement` | lnetlib/lnetlib/asio/buffers_iterator.hpp:336-363 | one flat byte back; the assertion fails exactly at position 0 |
| `BuffersIterators.BuffersIterator.Advance` | lnetlib/lnetlib/asio/buffers_iterator.hpp:366-445 | lands at position + n for every n in range, and an assertion fails for every n that is not; both loops terminate |
| `BuffersIterators.BuffersIterator.AdvanceForward` | lnetlib/lnetlib/asio/buffers_iterator.hpp:371-400 | the forward loop |
| `BuffersIterators.BuffersIterator.AdvanceBackward` | lnetlib/lnetlib/asio/buffers_iterator.hpp:406-443 | the backward loop; its assertion at begin_ cannot fail |
| `BuffersIterators.BuffersIterator.FindPrevious` | lnetlib/lnetlib/asio/buffers_iterator.hpp:429-442 | the nearest non-empty buffer before an index, if there is one |
| `BuffersIterators.AdvanceBySteps` | lnetlib/lnetlib/asio/buffers_iterator.hpp:313-445 | advance(n) and abs(n) increments or decrements end in the same buffer and offset, or both fail |
| `BuffersIterators.AdvanceTwice` | lnetlib/lnetlib/asio/buffers_iterator.hpp:366-445 | advance(m) and then advance(n) end in the same buffer and offset as advance(m + n), unless the first leaves the range |
| `BuffersIterators.AdvanceTo` | lnetlib/lnetlib/asio/buffers_iterator.hpp:307-456 | advancing by distance_to(other) succeeds and ends in other's buffer and offset |
| `BuffersIterators.At` | lnetlib/lnetlib/asio/buffers_iterator.hpp:178-183 | operator[] is the flat byte at position + difference, for every difference in range |
| `BuffersIterators.PositionOrder` | lnetlib/lnetlib/asio/buffers_iterator.hpp:264-297 | positions compare as (buffer, offset) pairs do |
| `BuffersIterators.ProperIsLocated` | lnetlib/lnetlib/asio/buffers_iterator.hpp:307-310 | one proper cursor for each position |
| `Messages.MessageRoundTrip` | lnetlib/lnetlib/istream.h:99-140 | a list of fields written and read back gives the same fields and consumes exactly their bytes, if and only if every field fits: lengths within their prefix type, no NUL in a string |
| `Messages.FieldRoundTrip` | lnetlib/lnetlib/istream.h:99-140 | the same for one field |
| `Messages.CursorAfterRead` | lnetlib/lnetlib/istream.h:99-140 | every read leaves the cursor at the next field, NUL or not, except exactly for a string longer than its prefix type can say |
| `Messages.TextAfterWrite` | lnetlib/lnetlib/istream.h:99-108 | what read_string gives for any string written: cut at the truncated length and at the first NUL, with the uncounted bytes left in the stream |
| `Messages.ScanPastTheArray` | lnetlib/lnetlib/istream.h:104-107 | whatever follows the array in memory, the scan and the cut to the size give the string up to its first NUL; the scan stays within the array if and only if a NUL was read |
| `Messages.ChunkAfterWrite` | lnetlib/lnetlib/istream.h:121-130 | what read_data_chunk gives for any vector written: the first length-modulo-prefix elements, and nothing left over |
| `Messages.IntegerAfterWrite` | lnetlib/lnetlib/istream.h:132-140 | every signed or unsigned number of any width comes back |
| `Messages.IntegerBytes` | lnetlib/lnetlib/ostream.h:104-108 | the bytes written for a number: its digits to the base 256, lowest first, two's complement for a negative one |
| `Messages.SizedBytes` | lnetlib/lnetlib/ostream.h:110-128 | the bytes written for a string or chunk: the length cut to its type, then all of the string, or as many bytes of the chunk |
| `Messages.NumberOfBytes` | lnetlib/lnetlib/istream.h:132-140 | any bytes read as a number of the type, which is written as those bytes |
| `Messages.ShortExactly` | lnetlib/lnetlib/istream.h:99-140 | a read comes up short if and only if the bytes it asks for are not all there |
| `Messages.CString` | lnetlib/lnetlib/istream.h:107 | the longest prefix without a NUL |
| `Messages.Truncated` | lnetlib/lnetlib/ostream.h:113 | the length kept by a cast: the same exactly when it fits |
| `Bytes.LittleEndianTruncates` | lnetlib/lnetlib/ostream.h:104-108 | writing a number in w bytes and reading it back gives the number modulo 256^w |
| `Bytes.LittleEndianDigit` | lnetlib/lnetlib/ostream.h:104-108 | byte i of a number written is its i-th digit to the base 256 |
| `Streams.OStream.constructor` | lnetlib/lnetlib/ostream.h:92-102 | the buffer holds the 16-byte header |
| `Streams.OStream.Write` | lnetlib/lnetlib/ostream.h:104-108 | appends what fits and sets badbit exactly when something did not; nothing once it is set: Peers.Written |
| `Streams.OStream.WriteString` | lnetlib/lnetlib/ostream.h:110-115 | the length cut to its type, then the whole string |
| `Streams.OStream.WriteDataChunk` | lnetlib/lnetlib/ostream.h:117-128 | the size cut to its type, then that many bytes |
| `Streams.OStream.WriteField` | lnetlib/lnetlib/ostream.h:104-128 | appends the field's representation |
| `Streams.OStream.Send` | lnetlib/lnetlib/ostream.cpp:91-101 | hands over the buffer the first time, nothing afterwards |
| `Streams.SendManyTimes` | lnetlib/lnetlib/ostream.cpp:31-101 | any number of sends before the destructor's dispatches one buffer |
| `Streams.IStream.constructor` | lnetlib/lnetlib/istream.cpp:31-38 | command and uid of the package, cursor at the payload; failbit on a shorter buffer |
| `Streams.IStream.Read` | lnetlib/lnetlib/istream.h:132-140 | the next n bytes, failbit exactly when there are fewer, nothing after that |
| `Streams.IStream.ReadBasic` | lnetlib/lnetlib/istream.h:132-140 | a number of the given width and the cursor past it |
| `Streams.IStream.ReadString` | lnetlib/lnetlib/istream.h:99-108 | reads as Messages.ReadField does for a text |
| `Streams.IStream.ReadDataChunk` | lnetlib/lnetlib/istream.h:121-130 | reads as Messages.ReadField does for a chunk |
| `Streams.IStream.ReadShape` | lnetlib/lnetlib/istream.cpp:49-97 | every read function as Messages.ReadField |
| `Streams.IStream.CreateResponse` | lnetlib/lnetlib/istream.cpp:99-109 | a new stream with the header of the command and uid read |
| `Streams.Exchange` | lnetlib/lnetlib/istream.cpp:31-38 | fields written to an ostream and read from an istream on its buffer: same command, uid and fields, nothing left |
| `SocketStreamBuffers.SocketStreamBuf.constructor` | lnetlib/lnetlib/asio/basic_socket_streambuf.hpp:432-441 | buffered, nothing pending |
| `SocketStreamBuffers.SocketStreamBuf.SendAll` | lnetlib/lnetlib/asio/basic_socket_streambuf.hpp:367-390 | sends exactly the pending bytes the sends accept up to the first failure, succeeds if and only if those are all, and leaves operation_aborted for an expired timer and the send's error for a failed one |
| `SocketStreamBuffers.SocketStreamBuf.OverflowBuffered` | lnetlib/lnetlib/asio/basic_socket_streambuf.hpp:365-401 | succeeds if and only if the sends accept all that is pending; on success nothing but the new character is pending, on a failure everything still is; sent ++ pending = written survives if and only if the sends accepted all of it or none |
| `SocketStreamBuffers.SocketStreamBuf.OverflowUnbuffered` | lnetlib/lnetlib/asio/basic_socket_streambuf.hpp:334-364 | one character, one send; written = sent survives if and only if the send took the byte |
| `SocketStreamBuffers.SocketStreamBuf.SPutC` | lnetlib/lnetlib/asio/basic_socket_streambuf.hpp:332-402 | a character is accepted exactly once or refused; order is kept; with a full put area it is accepted if and only if the sends accept all 512 bytes |
| `SocketStreamBuffers.SocketStreamBuf.Sync` | lnetlib/lnetlib/asio/basic_socket_streambuf.hpp:404-407 | succeeds if and only if the sends accept all that is pending, and then nothing is; sent ++ pending = written survives if and only if they accepted all or none |
| `SocketStreamBuffers.ProgressTakesAll` | lnetlib/lnetlib/asio/basic_socket_streambuf.hpp:367-390 | sends that all make progress and do not fail accept everything, within as many sends as bytes |
| `SocketStreamBuffers.FlushTwice` | lnetlib/lnetlib/asio/basic_socket_streambuf.hpp:404-407 | after a failed flush and a successful one nothing is pending, no character has been written, and the bytes the first got out are on the wire twice |
| `SocketStreamBuffers.FlushRepeats` | lnetlib/lnetlib/asio/basic_socket_streambuf.hpp:365-407 | a new buffer that is given 1 and 2 and flushed twice, the first time with a failure after one byte, has sent 1 1 2 |
| `SocketStreamBuffers.SocketStreamBuf.SetUnbuffered` | lnetlib/lnetlib/asio/basic_socket_streambuf.hpp:409-419 | only with nothing pending |
| `SocketStreamBuffers.Perform` | lnetlib/lnetlib/asio/basic_socket_streambuf.hpp:332-441 | over any writes, flushes and the switch to unbuffered mode, whatever the sends answer: what is pending, the characters accepted, and the bytes by which sent ++ pending exceeds them are decided by the answers; and sent ++ pending = written when every flush got out all or nothing and no character went as zero bytes |
| `SocketStreamBuffers.PerformWithProgress` | lnetlib/lnetlib/asio/basic_socket_streambuf.hpp:332-441 | if sends make progress, sent ++ pending = written at the end if and only if every flush on the way got out all that was pending, or nothing |
| `SocketStreamBuffers.PerformSmoothly` | lnetlib/lnetlib/asio/basic_socket_streambuf.hpp:332-441 | if sends neither fail nor stall: bytes sent ++ pending = all characters written, once and in order; after a flush all are sent |
| `SocketStreamBuffers.SurplusCounts` | lnetlib/lnetlib/asio/basic_socket_streambuf.hpp:365-407 | partial flushes only ever add repeated bytes, so nothing evens them out later |
| `Servers.Server.constructor` | lnetlib/lnetlib/server.cpp:31-35 | not running, no connections |
| `Servers.Server.SetThreadPolicy` | lnetlib/lnetlib/server.cpp:46-55 | ignored while running |
| `Servers.Server.InitServiceThreads` | lnetlib/lnetlib/server.cpp:225-248 | thread_count threads, the processor count for -1; with a count that is not positive (or 0 processors reported) no thread, and the caller runs the service |
| `Servers.Server.Start` | lnetlib/lnetlib/server.cpp:62-128 | nothing if already running; an error emitted if the encryption is not set up or the acceptor does not open; otherwise one accept outstanding and the threads of the policy, also after a stop |
| `Servers.Server.WaitFirstConnection` | lnetlib/lnetlib/server.cpp:111-128 | one accept more, and the threads of the policy: one, the count, or none with the caller running the service |
| `Servers.Server.ConnectedHandler` | lnetlib/lnetlib/server.cpp:160-172 | on success the connection and its session are listed and one accept is outstanding again; on an error it is reported, nothing else changes and no accept is started |
| `Servers.Server.RemoveConnection` | lnetlib/lnetlib/server.cpp:206-223 | connection and session gone, or nothing if they were not there: safe to repeat and to come early |
| `Servers.Server.EraseConnection` | lnetlib/lnetlib/server.cpp:210-215 | the first occurrence leaves the list, the order of the rest is kept |
| `Servers.Server.Stop` | lnetlib/lnetlib/server.cpp:92-102 | no longer running, and the service stopped; connections stay listed |
| `Servers.Serve` | lnetlib/lnetlib/server.cpp:111-260 | from a start on, over any sequence of accepts, failed accepts and closes: listed are exactly the connections listed before or accepted, and not closed since; one accept is outstanding until one fails; accepted + 1 threads more, or a constant number, which for a count of -1 is that of the processors |
| `Servers.StoppedForGood` | lnetlib/lnetlib/server.cpp:92-102 | once the service has stopped, no call of start, stop or set_thread_policy and no other event leads to another connection: a server cannot be restarted |
| `Servers.RestartAcceptsNothing` | lnetlib/lnetlib/server.cpp:62-128 | a server that is started, stopped and started again is running, with two accepts outstanding, and no connection comes of it whatever happens |
| `Servers.WithoutMembers` | lnetlib/lnetlib/server.cpp:206-223 | removing a connection from a list without duplicates leaves exactly the others |

## Left out

- Sockets, TLS, resolver, acceptor, `io_service` (but for its stopped flag in `Servers`), timers and the session and client classes: the transport is any sequence of steps that moves bytes in order; a successful read or write moves at least one byte unless none was asked for.
- `encryption` and `helper`: configuration and file access.
- lsignal and object lifetime: slots are taken as attached when a connection is created, a signal is an entry in a log or a count.
- Data races on the callbacks and the uid counter, which the code does not guard with its mutex: every handler and every API call is one atomic step.
- `Peers.ResponseRouting`, `Peers.UidBookkeeping` and the other results of `Peers`: for fewer than 2^64 calls of create_stream on each side, after which uids repeat.
- Host byte order: one little-endian encoding at both ends. Floats are their bytes.
- Integer widths: sizes, positions and iterator distances are unbounded where memory bounds them; `SIZE_MAX`, the 64-bit uid, the truncating casts of lengths and the `int` of pbump and gbump are explicit.
- `StreamBuffers.Perform`: for counts that, cut to what is there, fit an int; `Commit` and `Consume` say what others do. Every read operation commits at most 65536 bytes. `NarrowToInt` keeps the low 32 bits, which is what common compilers do with the cast.
- Chunks of elements wider than one byte, and the pointer form of read_data_chunk.
- Writing to an ostream after send: the std::ostream still points at the buffer, which by then belongs to the package being queued or written. In `Peers` such a write does nothing, and `OStream` does not allow it.
- Packages shorter than their 16-byte header, of which istream leaves the header variables unset: `Peers` reads them as if cut short, and no run delivers one; `Connection` routes them under whatever uid the stream has.
- Memory exhaustion, for instance when a size read from the wire is larger than the memory there is.
- `transfer_at_least`, synchronous read and write, read_until, the other overloads of `buffer`, and debug checks of buffers.
- `Buffers.Copyable`: source and target do not overlap, which memcpy needs; copies between overlapping buffers are not modelled. Target buffers may overlap each other; what such a copy leaves is `Buffers.CopyBytes`, and `Buffers.CopyMeans` is for targets without repetitions.
- `basic_socket_streambuf` input, connecting and its timer, except that the timer may have expired before any send.
- `Pipes` follows one direction at a time; that the handlers of one direction leave the other's fields alone is in their modifies clauses.
- `Servers`: a handler already running when stop is called, and which thread runs a handler.
- `connection::close` and `is_open`, which only forward to the socket.
