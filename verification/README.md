# The Version_1 server and client, modelled and proved in Dafny

`dafny verify dfyconfig.toml` checks the whole project.

The Version_1 server accepts TCP connections, drains each readable socket into a growable buffer and
parses at most one frame per read notice. Its client sends frames in pieces of at most 8192 bytes.
Write and exception notices go through a pool of worker threads. The project models these parts and
proves what they keep over whole runs.

| file | what it holds |
|---|---|
| Bytes.dfy | bytes, 32-bit words, sequence helpers |
| Framing.dfy | wire format, parser, read calls, delivery law |
| SimpleBuffer.dfy | CSimpleBuffer as a class over an array, with its growth cost |
| Transport.dfy | results of send and recv, the client class and its send loop |
| EndToEnd.dfy | client, network and server connection as one machine |
| WorkerQueue.dfy | one worker thread and its pushers, lock by lock, and the worker class |
| ThreadPool.dfy | the pool |
| StrExplode.dfy | the string splitter |
| FdSets.dfy | fd_set arrays |
| ServerModel.dfy | the server as a machine over handler calls, and its invariant |
| ServerLaws.dfy | handler targets, stale notices, isolation, counting |
| Coverage.dfy | close against accept, sockets that select never sees, frames lost at close |
| Server.dfy | CBaseSocket, CWGDConn, CWgdServer and CDispatchTask as classes, each handler proved to be its machine step |

How the pieces fit: a class method is proved to be a step of a machine over values (`Server` over
`ServerModel`, `WorkerThread` over `WorkerQueue.Step`, `WgdConn.OnRead` over `Framing.ReadCall`), and the
laws about runs are proved about the machines. `ServerLaws.Isolation` reduces every connection of the
server to its own read calls, so that the laws of `Framing` hold for it.

## What is assumed

- Each handler of the server runs as one atomic step. The original locks only single map and set
  operations, so a close on a worker thread can in fact fall inside a read on the main thread.
- The operating system hands out only descriptors that are not open. The address of a deleted socket
  object is not modelled; objects carry ids that are never reused.
- FD_SET keeps an array without duplicates and ignores additions beyond 64 (Winsock).
- realloc and new succeed. Words are little-endian, and signed 32-bit overflow wraps, as on the target.
- recv eventually answers with an error other than an interruption: a result of 0 does not leave the
  recv loop. send would-blocks only finitely often in one call. Both appear as preconditions.
- FIONREAD reports only bytes that were sent, and recv hands over such bytes before it fails.
- A buffer request stays at or below 3435973836 bytes; `ByteBuffer.FitsIff` and
  `ByteBuffer.WriteFitsIff` show the threshold is exact.
- The worker pool has at least one worker.

## What the code does not do

Each of these is a proved result with its exact condition where one exists.

- Complete frames can stay undelivered in a connection's buffer (`BacklogEmptyIff`). Only a read notice
  with bytes makes another read call, and one without closes, so they are then lost for good
  (`AllDeliveredIff`, `DeliveriesAreFinal`, `CloseLosesNothingIff`, with the run `CloseLosesBacklog`).
- A header with nDataLen -8 is delivered by every later call and never consumed (`StuckIff`,
  `StuckHeader`).
- A header with nDataLen below -8 blocks its connection until some 2^31 bytes or more are buffered (`BlockedIff`).
- Tasks can stay queued with their worker asleep (`QuiescentBacklog`, `StrandedStays`, `TwoPushesOneWake`).
- A stale notice can reach a different connection (`SameSocketIff`, `StaleExceptionClosesStranger`).
- A connection accepted while the read set is full never enters it (`WatchedIffRoom`, `SixtyFifthSocket`)
  and is read only through a notice raised before it was accepted (`UnwatchedHearsNothing`), which can
  happen (`StaleSnapshotReads`, `StaleSnapshotRun`). Up to 64 sockets there is always room (`CoverageIff`).
- The splitter leaves slots unassigned that its destructor frees (`AllSlotsFilledIff`,
  `EmptyFieldLeavesSlot`).
- The client's Send returns 0 whether or not it sent everything, and the next message follows a
  truncated or missing one (`Conservation`, `DeliveredInOrder`, `SkippedMessage`).
- `CWgdServer::OnWrite` is empty, so nothing in the server calls `CWGDConn::OnWrite`, and nothing sets
  m_busy; the drain is proved for any buffer and either value of the flag.

The table below lists the members that state a property. Operations on a single table or field (map and
set insertion and removal, the single actions of the worker loop) carry their contracts in the code and
are reached through the handlers and loops listed.

## Model

| member | source | states |
|---|---|---|
| `Framing.EncodeLayout` | Version_1/testClient/testClient/main.cpp:41-52 | the bytes of a frame: nCmd in the first four, nDataLen in the next four, least significant first, then the payload |
| `Framing.ParseLayout` | Version_1/TestServerFrameWork/src/WgdConn.cpp:22-53 | what one parse reports and removes, read off the bytes of any buffer: the command is the first four bytes as an int32, and nDataLen + 8 modulo 2^32 bytes are removed if there are so many |
| `Framing.ParseEncoded` | Version_1/TestServerFrameWork/src/WgdConn.cpp:22-41 | the parser takes the encoding of any message with a payload up to 2^31-9 bytes off the front of any buffer, as exactly that frame |
| `Framing.EncodeParsed` | Version_1/TestServerFrameWork/src/WgdConn.cpp:22-55 | the other direction: a frame parsed under a valid length is the encoding of the message it reports |
| `Framing.StuckIff` | Version_1/TestServerFrameWork/src/WgdConn.cpp:22-55 | a complete header at the front of the buffer is delivered by every later read call, whatever arrives, with every byte kept, if and only if its nDataLen is -8; with any other nDataLen, after the 32-bit wrap, a delivering call removes at least one byte, and exactly 8 + nDataLen bytes if nDataLen is not negative |
| `Framing.StuckHeader` | Version_1/TestServerFrameWork/src/WgdConn.cpp:22-55 | a concrete stream: the eight bytes of any command with nDataLen -8 leave such a header in the buffer and are delivered as nothing |
| `Framing.SilentUntilTotal` | Version_1/TestServerFrameWork/src/WgdConn.cpp:22-41 | a header whose frame is not complete: later read calls only append their bytes until the buffer reaches the total size, and a delivery follows as soon as it does |
| `Framing.BlockedIff` | Version_1/TestServerFrameWork/src/WgdConn.cpp:32-38 | a header with nDataLen below -8 wraps to a total of at least 2^31 + 8: nothing more is delivered, whatever follows, if and only if fewer than 2^32 + 8 + nDataLen bytes have been buffered |
| `Framing.IncrementalIsOneShot` | Version_1/TestServerFrameWork/src/WgdConn.cpp:186-211 | for every byte stream, malformed ones included, and every cut into read calls: deliveries followed by the parse of the buffer are the one-shot parse of all bytes received, and no byte is lost, repeated or moved |
| `Framing.DeliveryLaw` | Version_1/TestServerFrameWork/src/WgdConn.cpp:186-211 | one parse per call, exactly: after n calls the number of frames delivered is the least of (frames complete by call i, at most i) + n - i over i = 0..n |
| `Framing.BacklogEmptyIff` | Version_1/TestServerFrameWork/src/WgdConn.cpp:207-210 | no complete frame is left in the buffer if and only if, counted back from the last call, frames completed no faster than one per call |
| `Framing.NothingLostIff` | Version_1/TestServerFrameWork/src/WgdConn.cpp:207-210 | every complete frame of the bytes received has been delivered if and only if no frame is complete in the buffer |
| `Framing.CatchUp` | Version_1/TestServerFrameWork/src/WgdConn.cpp:207-210 | frames complete by call j are all delivered once as many further read calls have been made |
| `Framing.TwoFramesOneCall` | Version_1/TestServerFrameWork/src/WgdConn.cpp:207-210 | two frames received in one call: one is delivered and the other stays in the buffer |
| `Framing.FramesOfEncoded` | Version_1/testClient/testClient/main.cpp:44-54 | the frames of an encoded message list are its messages, in order |
| `Framing.PrefixDelivered` | Version_1/TestServerFrameWork/src/WgdConn.cpp:22-55 | when what arrived so far is a prefix of the encoded messages, what was delivered is a prefix of the messages |
| `ByteBuffer.FitsIff` | Version_1/TestServerFrameWork/src/SimpleBuffer.cpp:24-30 | with 32-bit wrap-around, a reallocation is large enough for its request if and only if the request is at most 3435973836 |
| `ByteBuffer.WriteFitsIff` | Version_1/TestServerFrameWork/src/SimpleBuffer.cpp:32-37 | with the guard of Write wrapping at 32 bits too, a write finds room if and only if it fits the allocation there is or its request is at most 3435973836 |
| `ByteBuffer.AmortisedRun` | Version_1/TestServerFrameWork/src/SimpleBuffer.cpp:24-47 | over every sequence of requests each fits, the bytes copied so far are at most 5 times the last reallocating request, and k reallocations force 5^(k-1) <= 4^(k-1) times that request |
| `ByteBuffer.CostOfRequest` | Version_1/TestServerFrameWork/src/SimpleBuffer.cpp:24-37 | the cost of one request: none if the allocation holds it, else one reallocation that copies the whole old allocation |
| `ByteBuffer.ReallocsCounted` | Version_1/TestServerFrameWork/src/SimpleBuffer.cpp:24-37 | the reallocations of a sequence of requests are as many as there are requests that the allocation of their time could not hold |
| `ByteBuffer.CopiedIsReplaced` | Version_1/TestServerFrameWork/src/SimpleBuffer.cpp:24-30 | the bytes copied are the sum of the sizes of all blocks replaced |
| `ByteBuffer.TwoReallocations` | Version_1/TestServerFrameWork/src/SimpleBuffer.cpp:24-30 | two requests that both reallocate: the exact allocation, copy and count |
| `ByteBuffer.PowSum` | Version_1/TestServerFrameWork/src/SimpleBuffer.cpp:24-30 | the powers in the growth bound are exponentials |
| `ByteBuffer.SimpleBuffer.Extend` | Version_1/TestServerFrameWork/src/SimpleBuffer.cpp:24-30 | keeps the queue, allocates the request and a quarter, and copies the whole old block, which is what the bookkeeping charges |
| `ByteBuffer.SimpleBuffer.Write` | Version_1/TestServerFrameWork/src/SimpleBuffer.cpp:32-47 | appends the bytes to the queue; with a null source appends that many unspecified bytes; keeps the amortised bound |
| `ByteBuffer.SimpleBuffer.Read` | Version_1/TestServerFrameWork/src/SimpleBuffer.cpp:49-60 | removes a prefix of the queue, of the length asked for or all of it, and copies it out unless the target is null |
| `ByteBuffer.SimpleBuffer.Deposit` | Version_1/TestServerFrameWork/src/WgdConn.cpp:198 | bytes received behind the queue leave the queue as it is |
| `ByteBuffer.SimpleBuffer.IncWriteOffset` | Version_1/TestServerFrameWork/src/SimpleBuffer.h:13 | turns the bytes behind the queue into its tail |
| `Transport.SendRunSplits` | Version_1/testClient/testClient/JSClient.cpp:192-218 | at every iteration, for every trace of partial sends, would-blocks and errors: sent bytes plus remaining bytes are the data, or the call has given up on a proper prefix |
| `Transport.DrainSplit` | Version_1/TestServerFrameWork/src/WgdConn.cpp:192-208 | what the recv loop collects: the bytes of each answer in turn, nothing for an interruption, and nothing from the first other error on |
| `Transport.JsClient.Send` | Version_1/testClient/testClient/JSClient.cpp:185-221 | terminates on every trace with finitely many would-blocks; the answers it saw are those of the trace, in order, each asked for the rest of the data but at most 8192 bytes; everything is sent if and only if none of them was a hard error, else a proper prefix; the run is one of the send machine |
| `Transport.AnswersUnique` | Version_1/testClient/testClient/JSClient.cpp:192-218 | the trace alone decides which answers a call that has come to its end has seen |
| `Transport.FirstRequest` | Version_1/testClient/testClient/JSClient.cpp:197-202 | the first request of a call is for all its data or for 8192 bytes of them |
| `EndToEnd.Conservation` | Version_1/TestServerFrameWork/src/WgdConn.cpp:186-211 | at every step of every interleaving of sender, network and server: delivered ++ buffered ++ in flight ++ unsent is the encoding of all messages, if and only if no send in the run was answered with a hard error |
| `EndToEnd.DeliveredInOrder` | Version_1/TestServerFrameWork/src/WgdConn.cpp:22-55 | for every run: without a hard error the deliveries are the first messages; if the first hard error hits the Send call of message f, the first min(deliveries, f) deliveries are the first messages |
| `EndToEnd.FirstCutIs` | Version_1/testClient/testClient/JSClient.cpp:202-214 | which message the f of DeliveredInOrder is: at the first hard error that meets a Send call with bytes left, the queue is what follows message f, and the bytes left are the end of its encoding |
| `EndToEnd.AllDeliveredIff` | Version_1/TestServerFrameWork/src/BaseSocket.cpp:149-158 | for every run, with the FIONREAD test in front of every read call: every message has been delivered if and only if no send met a hard error and, counted back from the last read call, messages arrived no faster than one per call; every read call carries a byte |
| `EndToEnd.DeliveriesAreFinal` | Version_1/TestServerFrameWork/src/BaseSocket.cpp:149-158 | once all bytes have been read, or the server has closed, no later event delivers anything: what is then left in the buffer is never delivered |
| `EndToEnd.NoticeWithoutBytesCloses` | Version_1/TestServerFrameWork/src/BaseSocket.cpp:149-154 | a read notice without bytes, outside a read call, closes the connection: nothing is received or delivered after it, whatever follows and whatever is in flight |
| `EndToEnd.SkippedMessage` | Version_1/testClient/testClient/JSClient.cpp:192-220 | a concrete run: the Send call of the first message meets a hard error at once, and the second message is delivered in its place |
| `EndToEnd.SendCallIsRun` | Version_1/testClient/testClient/JSClient.cpp:195-218 | the iterations of one Send call are a run of the end-to-end machine |
| `EndToEnd.ReadCallIsRun` | Version_1/TestServerFrameWork/src/WgdConn.cpp:192-210 | a read notice with bytes, the iterations of one recv loop and the parse behind it are a run of the end-to-end machine that makes one read call of the drained bytes |
| `WorkerQueue.RunInv` | Version_1/TestServerFrameWork/src/ThreadPool.cpp:31-67 | after every interleaving of the worker and any number of pushers, with Wait and Reset outside the critical section: the exact queue length (SetEvents lost in a set event, plus a pending wake, plus a wake in use, plus a push under way); resets plus the pending wake are the SetEvents that found the event clear; a SetEvent no pop has followed leaves the event set or the worker short of its pop; finished ++ in hand ++ queued is the push order |
| `WorkerQueue.PopFindsTask` | Version_1/TestServerFrameWork/src/ThreadPool.cpp:40-46 | whenever the worker reaches its pop the list is not empty, so the empty branch never runs |
| `WorkerQueue.UnservedPushIsServed` | Version_1/TestServerFrameWork/src/ThreadPool.cpp:31-67 | from every reachable state in which no pop has followed the last SetEvent, once no pusher is in the critical section, the worker's own next steps reach a pop that takes the front task |
| `WorkerQueue.UnservedSince` | Version_1/TestServerFrameWork/src/ThreadPool.cpp:31-67 | what "a SetEvent no pop has followed" means: the state records it only if the run has such a SetEvent |
| `WorkerQueue.StaysUnserved` | Version_1/TestServerFrameWork/src/ThreadPool.cpp:31-67 | and always if it has one |
| `WorkerQueue.PopWithinSixMoves` | Version_1/TestServerFrameWork/src/ThreadPool.cpp:31-67 | under every interleaving: from a reachable state in which no pop has followed the last SetEvent, fewer than six steps other than a pusher's change the state before the next pop, whatever pushers do in between |
| `WorkerQueue.QuiescentBacklog` | Version_1/TestServerFrameWork/src/ThreadPool.cpp:31-67 | with the worker asleep, the event clear and no push under way, the queue holds exactly the lost SetEvents, is empty if and only if there were none, and only a new push changes anything |
| `WorkerQueue.StrandedStays` | Version_1/TestServerFrameWork/src/ThreadPool.cpp:31-67 | between two such states the queue never shrinks |
| `WorkerQueue.TwoPushesOneWake` | Version_1/TestServerFrameWork/src/ThreadPool.cpp:31-67 | two pushes before one wake leave the second task queued with the worker asleep |
| `WorkerQueue.WorkerThread.PushTask` | Version_1/TestServerFrameWork/src/ThreadPool.cpp:61-67 | the four pusher steps in order, keeping the invariant of RunInv |
| `WorkerQueue.WorkerThread.PopTask` | Version_1/TestServerFrameWork/src/ThreadPool.cpp:41-45 | keeps the invariant of RunInv; the list is never empty here, and exactly its front task is taken |
| `WorkerQueue.WorkerThread.ExecuteOnce` | Version_1/TestServerFrameWork/src/ThreadPool.cpp:33-58 | the six worker steps of one loop in order: exactly the front task leaves the list and is counted, and the invariant of RunInv is kept |
| `ThreadPool.TaskGoesToRand` | Version_1/TestServerFrameWork/src/ThreadPool.cpp:106-113 | after any run, AddTask puts its task behind everything that worker rand modulo size has, if its critical section is free, and nowhere else; no other event changes what any worker has |
| `ThreadPool.ConservationAndOrder` | Version_1/TestServerFrameWork/src/ThreadPool.cpp:106-113 | for any pool size and any rand choices, what a worker has done, holds, queues and is being handed is exactly what AddTask gave it, in that order |
| `ThreadPool.ExactlyOnePlace` | Version_1/TestServerFrameWork/src/ThreadPool.cpp:106-113 | each of a set of different tasks is in one place of its own worker, once, and nowhere in any other worker |
| `ThreadPool.WorkerPool.AddTask` | Version_1/TestServerFrameWork/src/ThreadPool.cpp:106-113 | pushes to worker rand modulo size, leaves every other worker alone, and is the pool machine's AddTask followed by the three pusher steps left at that worker |
| `StrExplode.SplitThenJoin` | Version_1/TestServerFrameWork/src/util.cpp:83-120 | for every string: the items joined by the separator, plus one separator if the last segment is empty, give the string back; every item is non-empty with a separator at most in front |
| `StrExplode.JoinThenSplit` | Version_1/TestServerFrameWork/src/util.cpp:83-120 | splitting a rendered list of such items gives the same list and the same ending |
| `StrExplode.UniqueDecomposition` | Version_1/TestServerFrameWork/src/util.cpp:83-120 | a string has only one such decomposition |
| `StrExplode.SlotsLeftOver` | Version_1/TestServerFrameWork/src/util.cpp:83-120 | slots allocated minus slots filled: items that begin with the separator, plus one if the final segment is empty |
| `StrExplode.AllSlotsFilledIff` | Version_1/TestServerFrameWork/src/util.cpp:122-129 | every slot the destructor frees has been filled if and only if the string is not empty, does not begin or end with the separator and has no two separators in a row |
| `StrExplode.EmptyFieldLeavesSlot` | Version_1/TestServerFrameWork/src/util.cpp:83-129 | "a,,b" gets three slots and two items, so the destructor frees a slot that was never assigned |
| `StrExplode.CountSlots` | Version_1/TestServerFrameWork/src/util.cpp:85-93 | first pass: one slot more than there are separators |
| `StrExplode.FillSlots` | Version_1/TestServerFrameWork/src/util.cpp:97-119 | second pass: the slots hold the items in order, every store is inside the array, and the rest stay unassigned |
| `StrExplode.Explode.constructor` | Version_1/TestServerFrameWork/src/util.cpp:83-120 | both passes together, and every slot is filled if and only if the string has no empty field |
| `ServerModel.RunInv` | Version_1/TestServerFrameWork/src/WgdServer.cpp:146-288 | at every handler boundary of every run: socket map keys are the open descriptors, connection map keys are those minus listeners, each connection points at the socket mapped under its descriptor, the three interest sets are duplicate-free and name mapped descriptors only, live socket objects are the mapped ones, m_nCount is the number of deliveries |
| `ServerLaws.HandlersReachLiveObjects` | Version_1/TestServerFrameWork/src/EventDispatch.cpp:16-45 | however stale the notice: the handler runs on a socket object that has not been deleted, and a read that is not on a listener finds a connection that points at the same object |
| `ServerLaws.WriteNotice` | Version_1/TestServerFrameWork/src/BaseSocket.cpp:162-185 | after any run, a write notice takes its descriptor out of the write set and changes nothing else |
| `ServerLaws.WouldBlockAsks` | Version_1/TestServerFrameWork/src/BaseSocket.cpp:106-121 | after any run, a would-block on a connection puts it into the write set if there is room, and changes nothing else |
| `ServerLaws.CloseNotice` | Version_1/TestServerFrameWork/src/BaseSocket.cpp:129-158 | after any run, an exception notice, or a read notice without bytes, takes the descriptor out of both maps and all three sets and changes nothing else |
| `ServerLaws.SameSocketIff` | Version_1/TestServerFrameWork/src/EventDispatch.cpp:16-45 | a notice reaches the socket it was raised for if and only if its descriptor stayed open at every step in between |
| `ServerLaws.StaleExceptionClosesStranger` | Version_1/TestServerFrameWork/src/EventDispatch.cpp:36-44 | otherwise it may hit another one: an exception notice for a closed connection closes the next connection accepted under the descriptor |
| `ServerLaws.Isolation` | Version_1/TestServerFrameWork/src/WgdServer.cpp:216-272 | over every interleaving of all handlers, a connection has delivered and buffered exactly what its own read calls alone give |
| `ServerLaws.SameCallsSameDeliveries` | Version_1/TestServerFrameWork/src/WgdServer.cpp:216-223 | two runs that give a connection the same bytes call by call agree on its deliveries |
| `ServerLaws.ConnectionDeliveryLaw` | Version_1/TestServerFrameWork/src/WgdConn.cpp:186-211 | the exact delivery law for each connection of the server |
| `ServerLaws.ConnectionStream` | Version_1/TestServerFrameWork/src/WgdConn.cpp:186-211 | for each connection, bytes delivered and buffered are the bytes heard, and on a stream of encoded messages the deliveries are the first of them |
| `ServerLaws.GoneHearsNothing` | Version_1/TestServerFrameWork/src/EventDispatch.cpp:16-45 | no notice, however late, reaches a socket object that has been deleted |
| `ServerLaws.CountIsDeliveries` | Version_1/TestServerFrameWork/src/WgdServer.cpp:5-16 | the deliveries logged are as many as the read calls of all connections there have ever been make when run alone, and m_nCount is their number wrapped to 32 bits |
| `Coverage.CloseUndoesAccept` | Version_1/TestServerFrameWork/src/BaseSocket.cpp:129-139 | accept followed by close restores both maps and the three interest sets, order included |
| `Coverage.CoverageIff` | Version_1/TestServerFrameWork/src/WgdServer.cpp:146-184 | every socket has been in the read and exception sets at every step if and only if there were never more than 64 sockets |
| `Coverage.WatchedForLife` | Version_1/TestServerFrameWork/src/WgdServer.cpp:146-184 | as long as a socket stays mapped, its membership in the read and exception sets never changes |
| `Coverage.WatchedIffRoom` | Version_1/TestServerFrameWork/src/BaseSocket.cpp:287-308 | a connection accepted at any place of a batch is in the read set at every later step up to its close if and only if that set had room when it was accepted |
| `Coverage.FullIs` | Version_1/TestServerFrameWork/src/BaseSocket.cpp:287-308 | the run of SixtyFifthSocket: a listener on 0, and one batch that accepts 1 to 64 |
| `Coverage.SixtyFifthSocket` | Version_1/TestServerFrameWork/src/WgdServer.cpp:99-130 | a concrete run: with a listener and 64 connections the last connection is open and mapped, and select is never asked about it, whatever follows |
| `Coverage.UnwatchedHearsNothing` | Version_1/TestServerFrameWork/src/WgdServer.cpp:99-130 | a connection outside the read set hears nothing as long as it is open and every read notice handled for its descriptor was raised since it got there |
| `Coverage.StaleSnapshotReads` | Version_1/TestServerFrameWork/src/WgdServer.cpp:118-130 | the exception, in every reachable state with a full read set: a descriptor in a select snapshot is closed and accepted again without room, and the old notice reads the new connection, which is not in the read set |
| `Coverage.StaleSnapshotRun` | Version_1/TestServerFrameWork/src/WgdServer.cpp:118-130 | a concrete run of that kind, with a listener and 64 connections |
| `Coverage.CloseLosesNothingIff` | Version_1/TestServerFrameWork/src/BaseSocket.cpp:149-154 | for every run, connection and closing event: the connection never delivers again, and every complete frame it received has been delivered if and only if, counted back from its last read call, frames completed no faster than one per call |
| `Coverage.CloseLosesBacklog` | Version_1/TestServerFrameWork/src/BaseSocket.cpp:149-158 | a connection that received two frames in its only read call delivers one, and the close takes the other with it |
| `Server.WgdConn.ParseBuffer` | Version_1/TestServerFrameWork/src/WgdConn.cpp:22-41 | one parse of the reference parser: at most one frame leaves the buffer, is logged and counted, and -1 is returned if and only if there was none |
| `Server.WgdConn.DealBuffer` | Version_1/TestServerFrameWork/src/WgdConn.cpp:43-55 | removes exactly the parsed frame, counts and logs it |
| `Server.WgdConn.RecvOnce` | Version_1/TestServerFrameWork/src/WgdConn.cpp:194-207 | makes room for 8192 bytes, by the amortised request, and appends what recv gave |
| `Server.WgdConn.OnRead` | Version_1/TestServerFrameWork/src/WgdConn.cpp:186-211 | terminates on every trace with a final error, and is one read call of all bytes drained, however recv split them |
| `Server.WgdConn.SendFront` | Version_1/TestServerFrameWork/src/WgdConn.cpp:226-233 | sends a front piece of the output buffer and removes exactly what was accepted |
| `Server.WgdConn.OnWrite` | Version_1/TestServerFrameWork/src/WgdConn.cpp:213-240 | terminates; bytes accepted ++ buffer left is the old buffer; the k-th piece is what the trace accepted of the k-th request, which was for the front of what was then left but at most 131072 bytes; stays busy if and only if it was and bytes are left, and then on the answer the trace gave to the next request; a would-block on a connected socket adds it to the write set if there is room; a socket that is not connected sends nothing |
| `Server.FirstPiece` | Version_1/TestServerFrameWork/src/WgdConn.cpp:218-226 | the first piece of a drain answers a request for the whole buffer or for 131072 bytes of it |
| `Server.BaseSocket.Listen` | Version_1/TestServerFrameWork/src/BaseSocket.cpp:21-64 | on success the machine step Listen, on any failure no change |
| `Server.BaseSocket.Send` | Version_1/TestServerFrameWork/src/BaseSocket.cpp:101-122 | the return value in every case; on a mapped socket a would-block is the machine step SendBlocked and nothing else changes the server |
| `Server.BaseSocket.Close` | Version_1/TestServerFrameWork/src/BaseSocket.cpp:129-139 | leaves the three sets and the socket map, releases the descriptor, deletes the object |
| `Server.BaseSocket.OnRead` | Version_1/TestServerFrameWork/src/BaseSocket.cpp:141-160 | the machine step Readable: accept, close or read |
| `Server.BaseSocket.OnWrite` | Version_1/TestServerFrameWork/src/BaseSocket.cpp:162-185 | the machine step Writable, for a socket that is not connecting |
| `Server.BaseSocket.OnClose` | Version_1/TestServerFrameWork/src/BaseSocket.cpp:187-192 | the machine step Exceptional |
| `Server.BaseSocket.AcceptNewSocket` | Version_1/TestServerFrameWork/src/BaseSocket.cpp:281-309 | the accept loop enters every descriptor accept returns, in order |
| `Server.BaseSocket.AcceptOneSocket` | Version_1/TestServerFrameWork/src/BaseSocket.cpp:289-307 | one accepted descriptor gets a socket and a connection pointing at it |
| `Server.WgdServer.OnRead` | Version_1/TestServerFrameWork/src/WgdServer.cpp:216-223 | one read call on the connection of the descriptor; every other connection and socket unchanged |
| `Server.WgdServer.OnClose` | Version_1/TestServerFrameWork/src/WgdServer.cpp:225-237 | the descriptor leaves both maps and all sets; every other connection and socket unchanged; an error for an unmapped one |
| `Server.WgdServer.OnConnect` | Version_1/TestServerFrameWork/src/WgdServer.cpp:239-247 | a new empty connection that points at the mapped socket |
| `Server.WgdServer.StartWork` | Version_1/TestServerFrameWork/src/WgdServer.cpp:64-75 | listening succeeds with the machine step Listen or leaves the server as it was |
| `Server.DispatchTask.Run` | Version_1/TestServerFrameWork/src/EventDispatch.cpp:16-45 | the machine step of the kind of notice, on whatever socket the descriptor names when it runs |

## Left out

- Sub-handler interleavings of the server: handlers are atomic steps; only the worker queue is modelled at the level of its locks and event.
- The loop of StartDispatch: select snapshots are covered by letting every handler step name any descriptor at any time; the loop itself, its sleeps and its copies of the sets are not modelled.
- Outbound connections: CBaseSocket::Connect has no caller, so CONNECTING, ReConnect and that branch of OnWrite are not modelled.
- Server.BaseSocket.OnWrite: does not model the CONNECTING branch, because no socket of the server is ever in that state.
- Server.WgdServer.constructor: does not model the thread pool it starts; ThreadPool models that on its own.
- ByteBuffer.SimpleBuffer.Extend: does not model a call for a request the allocation already holds, because Write and OnRead both test for that first.
- WorkerQueue.WorkerThread.PushTask: takes the critical section to be free, because blocking is modelled by the machine and not by the method.
- Server.WgdServer.OnStatisticEnd: does not model the tick counts and the message printed at 1000 deliveries.
- Server.WgdServer.StartWork: does not model the dispatch loop it ends in, nor socket options and address resolution.
- Server.BaseSocket.Close: the object is not freed; its id leaves the set of live objects instead.
- Transport.JsClient.Send: does not model a send that would-blocks for ever, because the loop of the original does not end then.
- Server.WgdConn.OnRead: does not model a recv that never fails, because the loop of the original does not end then.
- Server.BaseSocket.OnRead: a negative FIONREAD result and a zero count are one case, because the code treats them alike.
- StrExplode.Explode: an unassigned slot is None, because Dafny has no uninitialised pointers; slot counts are unbounded rather than 32-bit.
- WorkerQueue.WorkerThread.ExecuteOnce: a single loop, because Execute never returns; runs of any length are those of WorkerQueue.Run.
- ThreadPool.WorkerPool.AddTask: one worker's critical section is taken to be free, because blocking is modelled by the machine and not by the method.
- Thread creation, printf, Winsock start-up, peer addresses and ports: foreign calls and data that no modelled branch reads.
- CWGDConn::Send, WriteFile and the upload and download switch are disabled code; ReadFile is file input.
- CRefObject, CLock and CAutoLock: the reference calls are commented out where they would matter, and the locks wrap the system's.
- CJSClient::BeginDetect, OnRead and onData: an input loop without framing.
- Version_2: its buffer and splitter are copies of Version_1's, and its connection and pool code is not part of this model.
