# Verified model of the DB middleware server

The server accepts TCP sessions, cuts their byte streams into length-prefixed packets, dispatches each
packet (login, insert), answers through a bounded outbound queue, and keeps the sessions in a sharded
registry with a nickname index. This project models those state machines and proves what they keep over
whole runs and under every interleaving.

| file | what it models |
|---|---|
| `Framing.dfy` | the wire format; one-shot parse, chunked reading, encoder |
| `MessageBuffer.dfy` | `MessageBufferManager`, which appends to and cuts one buffer |
| `Outbound.dfy` | the outbound queue of a session and its reference, a drop-oldest-unsent queue |
| `Dispatch.dfy` | `MessageDispatcher::dispatch` and its handlers, over the whole life of a session |
| `Reading.dfy` | a session's life told by its reads: chunks of bytes in, the packets they complete served |
| `Delivery.dfy` | what a peer decodes from the bytes a session wrote |
| `ReadToken.dfy` | `read_pending_`, the task queue and the read loop, with any threads calling `do_read` |
| `Sessions.dfy` | the `Session` and `MessageDispatcher` classes: the methods that change the fields |
| `Ownership.dfy` | login, takeover, close, overflow and sweep over any number of sessions, interleaved |
| `LockOrder.dfy` | the locks of every manager operation, over any number of threads |
| `Shards.dfy`, `Registry.dfy` | the sharded map, and `SessionManager` with the cleanups |
| `Traversal.dfy` | traversal and counting while other threads add and remove sessions |
| `ConnectionPool.dfy` | `MySqlPool` |
| `Utils.dfy` | `Option`, and the last element of a sequence |

Classes follow the C++ methods. The methods of `Session`, `MessageDispatcher` and `MySqlPool` are proved
equal to step functions, and the theorems are about runs of these functions. `MessageBufferManager` and
`SessionManager` state what they do to the buffer, the flat map and the index directly; no lemma relates
`SessionManager` to the steps of `Ownership`, whose `FinishLogin` says for itself what an uninterrupted
takeover does. A run is a sequence of events; an event that cannot happen in a state (a completion without
an outstanding write) leaves it unchanged.

## Findings

- The outbound queue needs `max_write_queue_size >= 2`: with 1, and only then, an overflow pops the
  message in flight, a completion pops an empty queue, and two writes overlap
  (`Outbound.SingleWriteExactly`, `Outbound.NeverPopsEmptyExactly`).
- An overflow close sets `closed_` and nothing else. Every later `close_session` returns early, so the
  session never leaves the registry (`Ownership.StrandedExactly`). If it owned a nickname, the entry points
  to it for ever, unless a login for the nickname was already past its duplicate check: such a login can
  still take the nickname over, and only such a login can (`Ownership.OverflowStrandsOwner`).
- A front element that is not in flight stops the outbound queue for ever, also after a login has set Ready
  again: no later post and no completion restarts it (`Outbound.SendingEndsExactly`). A failed write leaves
  one behind, and so does a post under a Closed state.
- The Closed state is not absorbing: a packet still in the buffer sets Ready again exactly if it is a login
  that succeeds, with the secret or, once the session has logged in, without it
  (`Dispatch.LoginReopensState`, `Dispatch.StaysClosedExactly`). `closed_` is monotone
  (`Dispatch.ClosedIsForever`).
- The duplicate check of the login does not make nicknames unique, the takeover does
  (`Ownership.CheckDoesNotExclude`, `Ownership.OneOpenOwner`). The check misses exactly the registrations
  completed after it (`Ownership.CheckMissesExactly`).
- Replacing an open session under its own id loses the new session, because the close of the old one
  removes by id (`Registry.SessionManager.AddSession`). `Ownership` therefore relies on unique ids, as the
  counter in `Server.cpp` gives until it wraps.
- `unregister_nickname` locks a mutex it already holds, so a thread that calls it never finishes
  (`LockOrder.UnregisterNeverFinishes`). It has no caller.
- After an invalid length the read callback returns without running the next task, so the session never
  reads again, also if its `close_session` had no effect (`ReadToken.ReadingEndsExactly`).

## Model

| member | source | states |
|---|---|---|
| Framing.ChunkIndependence | DBMiddleWareApplication/Session.cpp:328-361 | for every byte stream and every split into reads, append-then-drain gives the packets, residue and invalid-length verdict of parsing the whole stream at once |
| Framing.ParseIsExact | DBMiddleWareApplication/MessageBufferManager.cpp:22-44 | the packets emitted are of 1 to 4096 bytes and re-encode to exactly the consumed bytes; what follows is an unfinished frame, or starts with an invalid header if and only if the verdict is invalid |
| Framing.BytesAreConserved | DBMiddleWareApplication/MessageBufferManager.cpp:22-44 | until an invalid header, framed packets plus residue are all bytes received, and at most 4099 bytes remain |
| Framing.BufferIsBounded | DBMiddleWareApplication/Session.cpp:321-333 | with reads of at most 2048 bytes the buffer never exceeds 6147 bytes in the life of a session |
| Framing.ParseEncode | DBMiddleWareApplication/Session.cpp:123-132 | decoding inverts the writer's framing for every list of admissible messages |
| Framing.RoundTripExactly | DBMiddleWareApplication/Session.cpp:123-132 | a frame decodes to its message exactly when the message has 1 to 4096 bytes |
| Framing.EncodeLength | DBMiddleWareApplication/Session.cpp:124-127 | a four-byte header that carries the length modulo 2^32, in network byte order |
| Framing.LengthIsBigEndian | DBMiddleWareApplication/MessageBufferManager.cpp:27-29 | the length read is the header taken as a base-256 number, most significant digit first |
| Framing.NetworkOrder | DBMiddleWareApplication/MessageBufferManager.cpp:27-29 | of two headers the one with the smaller first differing byte carries the smaller length |
| Framing.HeaderIsUnique | DBMiddleWareApplication/MessageBufferManager.cpp:27-29 | no other four bytes carry that length |
| MessageBuffer.MessageBufferManager.Append | DBMiddleWareApplication/MessageBufferManager.cpp:12-20 | appends the bytes and leaves the flag alone |
| MessageBuffer.MessageBufferManager.ExtractMessage | DBMiddleWareApplication/MessageBufferManager.cpp:22-44 | takes exactly the first complete frame; keeps an unfinished one; on an invalid length empties the buffer and sets the flag, which every other outcome resets |
| MessageBuffer.TakeOne | DBMiddleWareApplication/MessageBufferManager.cpp:22-44 | taking packets one by one from the front reaches the one-shot parse |
| Outbound.AtMostOneWrite | DBMiddleWareApplication/Session.cpp:103-120 | in every run, through failures, closes and logins after a close, with a maximum of at least 2: at most one write is outstanding, a completion finds a front element, the queue and the overflow counter stay within their limits |
| Outbound.SingleWriteExactly | DBMiddleWareApplication/Session.cpp:256-258 | writes never overlap in any run if and only if the maximum is at least 2 |
| Outbound.NeverPopsEmptyExactly | DBMiddleWareApplication/Session.cpp:151-152 | a completion never pops an empty queue in any run if and only if the maximum is at least 2 |
| Outbound.QueueRefinesDropOldest | DBMiddleWareApplication/Session.cpp:94-162 | in every run, through failures, closes and reopenings, the writer is the reference queue that keeps the message in flight apart and drops the oldest waiting one: waiting is always `write_queue_[1..]`; a front element that a failed write or a Closed state leaves behind is stuck |
| Outbound.HealthyQueueIsSending | DBMiddleWareApplication/Session.cpp:103-120 | until the first failed write or Closed state, non-empty, in progress and in flight are the same thing |
| Outbound.ClosedStartsNothing | DBMiddleWareApplication/Session.cpp:113-114 | while the state stays Closed nothing is handed to the socket; what is in flight or completes was in flight before |
| Outbound.SendingEndsExactly | DBMiddleWareApplication/Session.cpp:103-120 | no write ever starts again if and only if the queue has a front element that is not in flight |
| Outbound.LossAccounting | DBMiddleWareApplication/Session.cpp:249-276 | in every run: posted = completed + in the queue + overflow pops + refusals |
| Outbound.DeliveredInOrder | DBMiddleWareApplication/Session.cpp:113-162 | in every run the messages completed, in flight and still startable are an in-order, duplicate-free subsequence of those posted |
| Outbound.LosslessWhenNeverFull | DBMiddleWareApplication/Session.cpp:249-276 | if no post found the queue full, they are all of those posted |
| Outbound.FailedWriteIsFinal | DBMiddleWareApplication/Session.cpp:145-150 | a failed write closes the session, and nothing is ever started or completed after it |
| Outbound.ClosedByRefusal | DBMiddleWareApplication/Session.cpp:262-268 | with no other close, `closed_` is set exactly if some post was refused, and the state is not Closed |
| Outbound.CounterIsStallDetector | DBMiddleWareApplication/Session.cpp:256-272 | the overflow counter is at least k exactly when the last k posts all found the queue full, with no write completing among them |
| Outbound.RefusalExactly | DBMiddleWareApplication/Session.cpp:260-268 | a post makes the writer give up exactly when it ends such a series as long as the limit |
| Dispatch.RegisteredExactly | DBMiddleWareApplication/MessageDispatcher.cpp:102-171 | the login flag is set exactly when some packet so far was a secret-prefixed login with a free, non-empty nickname, whatever happened in between |
| Dispatch.InsertIsGated | DBMiddleWareApplication/MessageDispatcher.cpp:102-171 | the insert handler is reached exactly when such a login came before and the packet is a JSON object of type insert |
| Dispatch.PacketClosesExactly | DBMiddleWareApplication/MessageDispatcher.cpp:110-160 | a packet closes an open session exactly if it lacks the secret before login, is not JSON, is of another type before login, is a keepalive without the secret, or its answer is refused by a stalled queue; an exception closes nothing |
| Dispatch.ClosedIsForever | DBMiddleWareApplication/Session.cpp:278-280 | `closed_` never reverts in the life of a session |
| Dispatch.PacketSetsState | DBMiddleWareApplication/MessageDispatcher.cpp:102-171 | the state after a packet: Ready for a login that succeeds, Closed for an offence in an open session, else as before |
| Dispatch.NicknameIsLastLogin | DBMiddleWareApplication/MessageDispatcher.cpp:25-27 | a session carries the nickname of its last login that succeeded, and is registered exactly if it has one |
| Dispatch.LoginReopensState | DBMiddleWareApplication/MessageDispatcher.cpp:102-171 | a packet served in the Closed state sets Ready exactly if it is a free, non-empty login, with the secret or after an earlier login without; otherwise the state stays Closed |
| Dispatch.StaysClosedExactly | DBMiddleWareApplication/Session.cpp:181-185 | over any further life the state stays Closed throughout exactly if no packet is such a login and nobody sets another state |
| Dispatch.LifeIsARun | DBMiddleWareApplication/Session.cpp:333-355 | every life of a session is a run of its writer, so all writer theorems hold for it |
| Delivery.CompletedMessagesArrive | DBMiddleWareApplication/Session.cpp:113-162 | in every run and for every chunking, a peer that has the bytes of the completed writes decodes exactly the completed messages, an in-order subsequence of those posted |
| Delivery.NothingElseArrives | DBMiddleWareApplication/Session.cpp:129-137 | with any part of the handed-over bytes a peer has decoded an initial segment of the messages handed over and seen no invalid length |
| Delivery.EverythingArrives | DBMiddleWareApplication/Session.cpp:94-162 | drained without ever finding the queue full, a peer decodes all posted messages in order |
| Delivery.AnsweredExactlyOnce | DBMiddleWareApplication/MessageDispatcher.cpp:14-65 | every packet that does not offend is answered exactly once, with the answer that belongs to it; an offending one never |
| Delivery.CompletedRepliesArrive | DBMiddleWareApplication/Session.cpp:137-159 | for every life of a session the peer decodes exactly the completed ones of its answers and other posts, in order |
| Delivery.RepliesArriveInOrder | DBMiddleWareApplication/Session.cpp:328-361 | from received bytes to the peer: however both streams are cut, the session has served exactly the packets of a one-shot parse, and the peer decodes exactly the completed answers in order, all of them once drained without filling the queue |
| Reading.ReadsAreALife | DBMiddleWareApplication/Session.cpp:323-361 | reads with anything in between are one life, whose packets are those of a one-shot parse of all bytes read |
| Reading.ServeAllIsLife | DBMiddleWareApplication/Session.cpp:333-355 | the packets of one read, served in a row, extend the life by as many packets, in order |
| ReadToken.TokenIsConserved | DBMiddleWareApplication/Session.cpp:304-325 | under every interleaving the token is in one place while `read_pending_` is set and nowhere otherwise; at most one read; none while a callback uses `data_`; the task queue is empty between strand steps and never full |
| ReadToken.ReaderCarriesToken | DBMiddleWareApplication/Session.cpp:54-86 | the flags, counters and queues are, step by step and under every interleaving, the place of one token: free, with a thread, on the strand, in a read, or parked |
| ReadToken.ClosedDoReadIsNothing | DBMiddleWareApplication/Session.cpp:309-312 | a `do_read` that finds the session Closed changes nothing |
| ReadToken.ClosedStartsNoRead | DBMiddleWareApplication/Session.cpp:309-316 | while everybody finds the session Closed, a free token stays free and no read starts |
| ReadToken.OverflowExactly | DBMiddleWareApplication/Session.cpp:61-67 | the task-queue overflow is reachable exactly if `max_task_queue` is 0 |
| ReadToken.TokenMakesProgress | DBMiddleWareApplication/Session.cpp:54-86 | no wake-up is lost: a held token is with a thread, on the strand or in a read, and its next step leads on to a read |
| ReadToken.WedgedForever | DBMiddleWareApplication/Session.cpp:357-361 | after the invalid-length return there is never a read again |
| ReadToken.ReadingEndsExactly | DBMiddleWareApplication/Session.cpp:357-361 | that return is the only thing after which no read can ever start |
| Sessions.Session.EnqueueWrite | DBMiddleWareApplication/Session.cpp:249-276 | drops the front when full, refuses at the limit, else appends; as the step function |
| Sessions.Session.DoWriteQueue | DBMiddleWareApplication/Session.cpp:113-162 | hands exactly the frame of the front message to the socket, unless the state is Closed or the queue empty |
| Sessions.Session.PostWrite | DBMiddleWareApplication/Session.cpp:94-111 | enqueues, and starts writing exactly if the queue was empty before |
| Sessions.Session.OnWriteDone | DBMiddleWareApplication/Session.cpp:137-159 | on success the completed frame is on the wire, the front is popped and the next write starts; on failure the session closes |
| Sessions.Session.CloseSession | DBMiddleWareApplication/Session.cpp:278-280 | only the first call changes anything, and it learns so |
| Sessions.Session.TryAcquireRead | DBMiddleWareApplication/Session.h:97-99 | succeeds exactly if no read was pending |
| Sessions.Session.DoRead | DBMiddleWareApplication/Session.cpp:304-325 | the token protocol's acquisition, refused in the Closed state or while a read is pending |
| Sessions.Session.PostTask | DBMiddleWareApplication/Session.cpp:54-74 | queues and starts the task, or closes the session when the task queue is full |
| Sessions.Session.RunNextTask | DBMiddleWareApplication/Session.cpp:76-86 | starts the front task or stops running |
| Sessions.Session.DrainPackets | DBMiddleWareApplication/Session.cpp:333-355 | serves exactly the packets of a one-shot parse, in order, each with its own error reply |
| Sessions.Session.OnData | DBMiddleWareApplication/Session.cpp:323-364 | the whole successful read is one step of `Reading`: packets served, residue kept, session closed on an invalid length; the token is passed on |
| Sessions.Session.OnReadFailed | DBMiddleWareApplication/Session.cpp:366-410 | closes the session unless the read was aborted, and gives the token up |
| Sessions.MessageDispatcher.Dispatch | DBMiddleWareApplication/MessageDispatcher.cpp:102-171 | the effect on the session of every branch; an exception leaves it untouched |
| Sessions.MessageDispatcher.LoginHandler | DBMiddleWareApplication/MessageDispatcher.cpp:14-31 | refuses an empty or taken nickname, else registers and answers |
| Ownership.OneOpenOwner | DBMiddleWareApplication/SessionManager.cpp:84-100 | under every interleaving at most one open session has completed registration for a nickname; the index maps the nickname to it, its weak reference is live and no sweep can remove it |
| Ownership.OwnedNicknameIsRefused | DBMiddleWareApplication/SessionManager.cpp:114-121 | while a nickname has an open owner the duplicate check lets nobody through |
| Ownership.CheckPassesExactly | DBMiddleWareApplication/SessionManager.cpp:114-121 | the check lets a resting session through exactly when the session that last registered the nickname no longer exists, swept or not |
| Ownership.OwnerCanReconnect | DBMiddleWareApplication/MessageDispatcher.cpp:20-24 | after a disconnect the old nickname is free for a new session, with no sweep in between |
| Ownership.SweepRemovesExactly | DBMiddleWareApplication/SessionManager.cpp:132-143 | a sweep needs the mutex and removes dead entries only |
| Ownership.CheckDoesNotExclude | DBMiddleWareApplication/MessageDispatcher.cpp:20-28 | two sessions can pass the check for one nickname and both complete; the first is then closed |
| Ownership.CheckMissesExactly | DBMiddleWareApplication/MessageDispatcher.cpp:20-28 | a login past its check closes another session at the takeover exactly if that one completed its registration for the nickname after the check and is still open |
| Ownership.FinishLogin | DBMiddleWareApplication/SessionManager.cpp:84-100 | an uninterrupted takeover closes and removes the other session found if it was open, and overwrites the entry |
| Ownership.RemovedForever | DBMiddleWareApplication/Session.cpp:278-302 | a session that has left the registry is closed, was torn down exactly once and never returns |
| Ownership.OpenIsRegistered | DBMiddleWareApplication/SessionManager.cpp:13-48 | an added session whose `closed_` is false is registered and alive in every interleaving |
| Ownership.CloseIsCompleted | DBMiddleWareApplication/Session.cpp:278-297 | a close sets `closed_` and makes a teardown due, which removes the session exactly once, whatever comes in between |
| Ownership.StrandedExactly | DBMiddleWareApplication/Session.cpp:262-268 | a closed session stays registered with no teardown to come exactly if an overflow closed it while it was open |
| Ownership.OverflowStrandsOwner | DBMiddleWareApplication/Session.cpp:264-280 | an owner closed by an overflow stays registered for ever; its nickname can still be taken over if and only if a login for it was past its check by then, and without one nobody passes the check again |
| LockOrder.NoDeadlock | DBMiddleWareApplication/SessionManager.cpp:13-170 | for any number of threads, any operations and any schedule: if nobody can go on, then everybody has finished and released everything exactly if nobody calls `unregister_nickname` |
| LockOrder.ProgramIsOrdered | DBMiddleWareApplication/SessionManager.cpp:13-170 | every such operation takes the nickname mutex first, then at most one shard mutex at a time, also in the closes inside takeover and cleanup |
| LockOrder.LocksExactly | DBMiddleWareApplication/SessionManager.cpp:13-170 | an operation locks exactly the mutexes of what it touches: the index, its shard, all shards of a traversal, the shards of the sessions it closes |
| LockOrder.IndexIsGuarded | DBMiddleWareApplication/SessionManager.cpp:84-143 | the index is used under the nickname mutex from the first act to the last |
| LockOrder.UnregisterNeverFinishes | DBMiddleWareApplication/SessionManager.cpp:102-112 | in any system and schedule, a thread that comes to call `unregister_nickname` never finishes |
| Shards.GetShard | DBMiddleWareApplication/SessionManager.h:49 | in range for every id, negative ones under unsigned conversion |
| Shards.PutInShard | DBMiddleWareApplication/SessionManager.cpp:19-26 | writing into the key's own shard is writing into the flat map |
| Shards.RemoveFromShard | DBMiddleWareApplication/SessionManager.cpp:40-45 | erasing from the key's own shard is erasing from the flat map |
| Shards.SizesAddUp | DBMiddleWareApplication/SessionManager.cpp:74-81 | the bucket sizes add up to the size of the flat map |
| Registry.SessionManager.AddSession | DBMiddleWareApplication/SessionManager.cpp:13-34 | registers the session, unless it replaces an open one, in which case the id is left unregistered |
| Registry.SessionManager.RemoveSession | DBMiddleWareApplication/SessionManager.cpp:36-48 | removes the id from the flat map and returns what was there |
| Registry.SessionManager.FindSession | DBMiddleWareApplication/SessionManager.cpp:50-57 | the flat map's answer |
| Registry.SessionManager.CloseSession | DBMiddleWareApplication/Session.cpp:278-302 | an open session is closed and removed; a closed one is left as it is |
| Registry.SessionManager.SessionCount | DBMiddleWareApplication/SessionManager.cpp:74-81 | the size of the flat map |
| Registry.SessionManager.Snapshot | DBMiddleWareApplication/SessionManager.cpp:59-71 | every registered session exactly once |
| Registry.SessionManager.RegisterNickname | DBMiddleWareApplication/SessionManager.cpp:84-100 | another live session under the nickname is told, and closed and removed if it was open; then the entry is overwritten |
| Registry.SessionManager.FindSessionByNickname | DBMiddleWareApplication/SessionManager.cpp:114-121 | the indexed session if it still exists |
| Registry.SessionManager.CleanupExpiredNicknames | DBMiddleWareApplication/SessionManager.cpp:132-143 | removes exactly the expired entries |
| Registry.SessionManager.CleanupInactive | DBMiddleWareApplication/SessionManager.cpp:145-170 | closes exactly the idle sessions and changes no other; exactly the open ones among them leave the registry |
| Registry.SessionManager.CleanupUnauthSessions | DBMiddleWareApplication/DataHandler.cpp:92-116 | asks exactly the excess of the unauthenticated sessions to close, each no newer than every one spared; nobody else is touched; exactly the open ones among those asked leave the registry |
| Traversal.Traverse | DBMiddleWareApplication/SessionManager.cpp:59-71 | while the registry changes: nobody is visited twice, everybody present throughout is visited, everybody visited was present at some moment |
| Traversal.CountScan | DBMiddleWareApplication/SessionManager.cpp:123-130 | while the registry changes: the count lies between those present throughout and those present at some moment |
| Traversal.IdsOverTime | DBMiddleWareApplication/SessionManager.cpp:123-130 | the bounds are exactly the ids registered at every moment and at some moment |
| ConnectionPool.EveryConnectionHasOnePlace | DBMiddleWareApplication/MysqlPool.cpp:49-76 | over any run every connection created is in exactly one of idle, lent and discarded; idle never exceeds the capacity; idle ones leave in the order they entered |
| ConnectionPool.StartIsBalanced | DBMiddleWareApplication/MysqlPool.cpp:16-32 | the same after any partly failed start, with nothing lent |
| ConnectionPool.StartFillsPool | DBMiddleWareApplication/MysqlPool.cpp:16-32 | as many idle connections as attempts that succeeded |
| ConnectionPool.TakeLendsOldest | DBMiddleWareApplication/MysqlPool.cpp:49-56 | an acquire lends the connection that has been idle longest |
| ConnectionPool.TakeLendsNew | DBMiddleWareApplication/MysqlPool.cpp:57-68 | from an empty pool it lends a new one if connecting succeeds, else nothing |
| ConnectionPool.ReturnIsReused | DBMiddleWareApplication/MysqlPool.cpp:70-76 | a returned connection is idle again exactly if the pool had room, else discarded |
| ConnectionPool.DiscardedExactly | DBMiddleWareApplication/MysqlPool.cpp:70-76 | a connection is discarded exactly if it was once returned to a full pool |
| ConnectionPool.DiscardedForever | DBMiddleWareApplication/MysqlPool.cpp:70-76 | a connection discarded on return is never lent again |
| ConnectionPool.MySqlPool.constructor | DBMiddleWareApplication/MysqlPool.cpp:16-32 | one attempt per slot, failed ones left out |
| ConnectionPool.MySqlPool.Acquire | DBMiddleWareApplication/MysqlPool.cpp:49-68 | lends the oldest idle connection, else a new one, else nothing if connecting fails |
| ConnectionPool.MySqlPool.Release | DBMiddleWareApplication/MysqlPool.cpp:70-76 | keeps a returned connection up to the capacity, else discards it |

## Left out

- Sessions.Session.OnData: is one thread's callback with no other thread in between; the interleavings are the subject of ReadToken and Ownership.
- Sessions.Session.CloseSession: has no socket; the removal from the registry that ends it is Registry.SessionManager.CloseSession.
- Sessions.MessageDispatcher.LoginHandler: takes the index's answer as a parameter; the entry into the index is Ownership's `Enter` and Registry.SessionManager.RegisterNickname.
- Registry.SessionManager.RegisterNickname: names the previous owner that gets the notice, but the posting runs on that session's own strand, where it is an outside post of its life.
- Ownership.OneOpenOwner: relies on ids being unique, so not on the session counter after it wraps.
- Asio sockets, strands, timers: a strand is "callbacks of one session, one at a time", a read or write a step with any result.
- Buffer lifetime in `do_write_queue`: the header on the stack and the message are taken to stay unchanged for the whole write.
- JSON parsing: an arbitrary function from texts to not-JSON, a value on which access throws, or an object with its type, nickname and table members.
- The text of the insert statement: it is only logged.
- `max_write_queue_size` 0 and a shard count of 0: the C++ code has undefined behaviour at once (a pop on an empty queue, a division by zero).
- Wrap-around of 64-bit counters.
- Fairness of mutexes and of the scheduler.
- The MySQL connector, alerts, environment, configuration file, logger and memory tracker: foreign calls and I/O; configuration values are parameters.
- `generated/wire.pb.*`: no message class is used by the server logic.
- `AllowedIPManager`, `do_keepalive_check` (it closes nothing), and the `generation_`, `released_` and `zone_id_` fields: easy or unused.
- `start_login_timeout`, `start_cleanup_loop`: never called; only the cleanup functions are modelled.
