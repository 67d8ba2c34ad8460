# Hypertable and Hyperspace, verified

A Dafny model of the concurrent and byte-level core of Hypertable: its message
layer (AsyncComm), its lock service and namespace (Hyperspace), and the
checksums and codecs they share.  Everything here is proved by the Dafny
verifier; the C++ program is modelled, not run.

Operations that change state in the source are classes and methods here, proved
against functions on values.  Protocols are step systems over those functions:
each critical section is one step, and sockets, the network, clocks, timers and
the database are parameters of the steps that may answer in any way the
interface allows.  The theorems are about every run of these systems.

| files | what they model |
|---|---|
| `ApplicationQueue`, `WorkerProgress` | the worker pool that serialises the requests of a thread group: usage records, scanning, completion and shutdown; and what the workers can always still do |
| `Serialization`, `MessageBuffer`, `Keepalive` | integers, variable-length integers and strings; the buffer a message is built in; the keepalive datagram with its list of notifications |
| `Sessions`, `Leases`, `ClientHandler` | the server's and the client's half of event notification, on values and as they update their fields; when a lease ends |
| `NotificationProtocol`, `NotificationLimits`, `EventDelivery`, `EventRuns` | both halves over a network that loses, repeats and reorders datagrams; when that is safe; and when the master fills the queues so |
| `ClientGenerations`, `GenerationRuns` | the lock generations a client keeps, from replies and from notifications, and what stale datagrams do to them |
| `FrameReceiver`, `SendQueue`, `MessageTransport` | reassembly of frames from fragments, the send queue under partial writes, and both together |
| `RequestCache`, `RequestOutcomes` | the linked list and map of pending requests, and what each waiter hears over whole runs |
| `Locks`, `LockMaster`, `LockSafety`, `LockWaiters`, `LockExamples`, `LockGenerations` | the lock of a node: the model, the master's operations, mutual exclusion, the queue of waiters, runs in which these fail, and generations as fencing tokens |
| `Lexicographic`, `AdjacentDuplicates`, `Namespace`, `NamespaceLaws`, `NamespaceOrder`, `NamespaceUpdates`, `NamespaceRemoval`, `NamespaceTree`, `NamespaceReads`, `NamespaceExamples` | the directory tree in a flat ordered key store: cursors, the operations, listings, well-formedness over whole runs, and what each operation does to the tree and to every attribute |
| `RunningSums`, `AdlerChecksum`, `FletcherChecksum` | Adler-32 in both forms and Fletcher-32 in both forms |
| `Md5` | the streaming part of MD5 over any compression function |
| `Sequences` | counting, filtering and concatenation |

## Where the code does not do what it is meant to

The models follow the code.  Where an evident intent fails, one lemma says exactly
when it holds, and another shows a concrete case in which it does not.

- `Master.cc:961` resets the lock mode although shared holders may be left, and
  963-1008 hand the lock over.  The lock model has the release as written, with
  only the reset under the test at 954, and with both under it; each has its
  exact condition (`LockSafety.ReleaseAgreesExactly`).  The code as written
  overlooks a shared holder (`LockExamples.AsWrittenOverlooksSharedHolder`), and
  guarding the reset alone is not enough (`LockExamples.ResetAloneIsNotEnough`).
  Over whole runs the condition is that every release is safe
  (`LockSafety.AgreeThroughoutExactly`).
- A release fails an assertion when the handle waits for the lock it holds
  (`LockExamples.ReleaseByWaiterAborts`), and when the node does not name it as its
  holder, which happens to a shared holder that was overlooked
  (`LockExamples.OverlookedHolderAborts`): in these two cases exactly
  (`LockSafety.ReleaseAbortsExactly`, and `LockSafety.RunAbortsExactly` over runs).
- A release tries one group of waiters only, so a lock can stay free with an open
  waiter, when the group is destroyed or when the database fails
  (`LockSafety.StuckExactly`, and `LockWaiters.NeverStuckExactly` over runs;
  `LockExamples.FreeLockWithWaiter`, `LockExamples.FreeLockAfterFailure`).  When the
  database fails in a hand-over, the group has left the queue and gets nothing
  (`LockWaiters.ServesThroughoutExactly`, `LockExamples.LostRequest`).
- `Master::lock` looks its handle up before it takes the node's mutex, so a
  destroyed handle can be granted the lock (`LockSafety.HeldThroughoutExactly`,
  `LockExamples.OvertakenRequestHolds`).
- The length of a keepalive is added up in 32 bits, and the header is added to that
  in 32 bits again, so a long queue overruns its buffer
  (`Keepalive.CreateServerKeepalive`, `Keepalive.HeaderWraps`).
- A datagram with a lock grant sets the handle's generation before the duplicate
  filter (`ClientKeepaliveHandler.cc:203`), so a stale one sets it back
  (`GenerationRuns.AgreesThroughoutExactly`, `GenerationRuns.StaleGrantSetsBack`).
- Event ids are filtered per session, so a queue whose ids do not strictly
  increase loses notifications: exactly those do
  (`NotificationLimits.SafeExactlyWhenIncreasing`), each in some run
  (`NotificationLimits.OtherQueuesLose`).  The master fills queues with increasing
  ids exactly when events are made apart (`EventRuns.SafeThroughoutExactly`,
  `EventRuns.OneEventTwice`).
- `unlink` does not check the prefix of the first key it meets, so removing a
  missing name can remove another node (`NamespaceRemoval.UnlinkMissingExactly`,
  `NamespaceRemoval.UnlinkMissingDeletesOther`) and break the namespace
  (`NamespaceRemoval.UnlinkKeepsExactly`, `NamespaceExamples.UnlinkOrphansAttribute`).
- A listing drops only repetitions that stand next to each other, so a file can be
  named twice (`NamespaceOrder.TwiceExactly`, `NamespaceExamples.FileListedTwice`);
  as a set it is right (`NamespaceLaws.ListingIsChildren`).
- A listing of a missing directory is refused only when some key sorts behind it, and
  is empty otherwise (`NamespaceLaws.RefusedExactly`,
  `NamespaceExamples.MissingIsListed`).
- `mkdir` does not check for a file of the same name
  (`NamespaceUpdates.MkdirKeepsExactly`, `NamespaceExamples.MkdirOverFile`).
- A response for a request of a closed connection reaches a waiter that was
  already told of a cancellation (`RequestOutcomes.ConservedExactly`,
  `RequestOutcomes.AnsweredAfterClose`), and one request with a long timeout hides
  later ones with short timeouts from the drain
  (`RequestOutcomes.DrainCompleteExactly`, `RequestOutcomes.LongTimeoutHidesShort`).
- A frame without a body is handed out with the next read only
  (`FrameReceiver.LateExactlyForEmptyBody`, `MessageTransport.EmptyMessageIsLate`).
- A request pushed after shutdown may never run
  (`ApplicationQueue.ShutdownDrainsExactly`, `ApplicationQueue.LatePushIsStranded`).
- `adler32_update` returns an argument that is not reduced unchanged when the input
  is empty; the folding form reduces it (`AdlerChecksum.ProgramsAgreeExactly`,
  `AdlerChecksum.ProgramsDiffer`).

Two more readings of the source: `Checksum.h` documents the length of
`fletcher32a` as bytes, but the code counts 16-bit words, and so does the model.
The receive loop is the kqueue one (`IOHandlerData.cc:229-331`); in the epoll loop
the error test on an unsigned count never fires.

## Model

| member | source | states |
|---|---|---|
| ApplicationQueue.FirstRunnable | src/cc/AsyncComm/ApplicationQueue.h:99-119 | the scan's result: the first request that has no group or whose group is not running; everything before it belongs to a running group |
| ApplicationQueue.ApplicationQueueState.constructor | src/cc/AsyncComm/ApplicationQueue.h:157-163 | the queue starts empty, with no usage records and no shutdown |
| ApplicationQueue.ApplicationQueueState.AddUsage | src/cc/AsyncComm/ApplicationQueue.h:200-218 | first half of `add`: the group's usage record is found or made and `outstanding` raised; a request of group 0 gets none |
| ApplicationQueue.ApplicationQueueState.Push | src/cc/AsyncComm/ApplicationQueue.h:220-224 | second half of `add`: the request goes to the end of the queue and nothing else changes |
| ApplicationQueue.ApplicationQueueState.Scan | src/cc/AsyncComm/ApplicationQueue.h:99-119 | the worker's loop takes exactly the first runnable request, marks its group running and leaves the rest in order, or takes nothing when none is runnable |
| ApplicationQueue.ApplicationQueueState.Complete | src/cc/AsyncComm/ApplicationQueue.h:122-134 | completion lowers `outstanding`, clears `running`, and removes and frees the record exactly when the count reaches zero |
| ApplicationQueue.ApplicationQueueState.Shutdown | src/cc/AsyncComm/ApplicationQueue.h:177-180 | the shutdown flag is set and nothing else changes |
| ApplicationQueue.StepOk | src/cc/AsyncComm/ApplicationQueue.h:84-138 | every atomic step of every worker and adder keeps the invariant (usage accounting, order, one at a time, conservation, draining) |
| ApplicationQueue.RunOk | src/cc/AsyncComm/ApplicationQueue.h:84-138 | the invariant holds after every run from a state that has it |
| ApplicationQueue.GroupRunsAlone | src/cc/AsyncComm/ApplicationQueue.h:84-138 | in every interleaving at most one request of a non-zero thread group runs at a time |
| ApplicationQueue.GroupRunsInOrder | src/cc/AsyncComm/ApplicationQueue.h:84-138 | the requests of a group are started in the order pushed, none skipped, none twice, and each completes before the next starts |
| ApplicationQueue.SkippedGroupIsRunning | src/cc/AsyncComm/ApplicationQueue.h:99-119 | a request passed over by a scan belongs to a group of which another worker is running a request |
| ApplicationQueue.UsageIsExact | src/cc/AsyncComm/ApplicationQueue.h:122-134 | `outstanding` is queued plus half-added plus running requests of the group; the map holds the group exactly while that is positive; no request refers to a freed record |
| ApplicationQueue.ShutdownDrains | src/cc/AsyncComm/ApplicationQueue.h:93-119 | when all workers have exited, what was pushed while a worker was still to scan has completed exactly once and the queue holds exactly what came later |
| ApplicationQueue.ShutdownDrainsExactly | src/cc/AsyncComm/ApplicationQueue.h:93-119 | when all workers have exited, the queue is empty, and every request completed exactly once, if and only if every push of the run was made while some worker was idle or running |
| ApplicationQueue.ShutdownDrainsAll | src/cc/AsyncComm/ApplicationQueue.h:93-119 | in a run with no push after shutdown, all workers exited means an empty queue and every request completed exactly once |
| ApplicationQueue.LatePushIsStranded | src/cc/AsyncComm/ApplicationQueue.h:200-224 | a concrete run in which a request pushed after shutdown is never run |
| WorkerProgress.CanServe | src/cc/AsyncComm/ApplicationQueue.h:84-138 | from every state with an idle or running worker, the workers can carry out all that was pushed, each request exactly once |
| WorkerProgress.NeverStuck | src/cc/AsyncComm/ApplicationQueue.h:84-138 | so it is in every run before shutdown: no reachable state is a dead end |
| WorkerProgress.CanScanAgain | src/cc/AsyncComm/ApplicationQueue.h:93-119 | before shutdown no worker exits, and each can get to scan again |
| WorkerProgress.CanDrain | src/cc/AsyncComm/ApplicationQueue.h:93-119 | from every state after shutdown all workers can exit, and all that was pushed is carried out before that if one of them is still idle or running |
| Serialization.EncodeInt | src/cc/Common/serialization-c.h:119-227 | fixed-width integers take exactly `n` bytes |
| Serialization.DecodeEncodeInt | src/cc/Common/serialization-c.h:119-227 | a fixed-width little-endian integer decodes to itself and leaves any suffix untouched |
| Serialization.IntBytes | src/cc/Common/serialization-c.h:119-227 | the byte at place `i` is the one that counts `256^i`: the least significant comes first |
| Serialization.Vint32RoundTrip | src/cc/Common/serialization-c.h:247-358 | every 32-bit value encodes, decodes to itself with any suffix left, in exactly the computed length |
| Serialization.Vint64RoundTrip | src/cc/Common/serialization-c.h:256-366 | the same for every 64-bit value |
| Serialization.VintLength | src/cc/Common/serialization-c.h:247-263 | the encoding takes one byte per started group of seven bits |
| Serialization.VintBytes | src/cc/Common/serialization-c.h:267-276 | each byte carries the next seven bits of the value, and all but the last have the top bit on |
| Serialization.DecodeVintExactly | src/cc/Common/serialization-c.h:315-366 | a vint is read up to its first byte without the top bit; it is an overrun or a bad vint if and only if there is none among the bytes it may have |
| Serialization.VstrRoundTrip | src/cc/Common/serialization-c.h:440-464 | every string of up to 2^64 - 2 bytes decodes to itself with any suffix left, in exactly the computed length |
| Serialization.DecodeVstrExactly | src/cc/Common/serialization-c.h:450-464 | a string is read if and only if its length, its bytes and a zero byte stand there |
| Serialization.VstrLayout | src/cc/Common/serialization-c.h:434-449 | the encoding ends in the bytes of the string and a zero |
| Keepalive.NotificationRoundTrip | src/cc/Hyperspace/Event.h:90-158 | each of the four kinds of event, with its handle, decodes to itself and takes the length its `encoded_length` computes |
| Keepalive.ListRoundTrip | src/cc/Hyperspace/Protocol.cc:100-127 | any list of mixed notifications decodes to the same list with any suffix left, and fills exactly the length the first loop sums up |
| Keepalive.NotificationLayout | src/cc/Hyperspace/Event.h:90-158 | where handle, event id, mask and the payload of each kind stand |
| Keepalive.LockMasks | src/cc/Hyperspace/HandleCallback.h:42-44 | the bits of the three kinds of lock events |
| Keepalive.ClientKeepalive | src/cc/Hyperspace/Protocol.cc:72-80 | where command, session id, last known event and the shutdown flag stand |
| MessageBuffer.EncodeHeader | src/cc/AsyncComm/HeaderBuilder.cc:27-38 | where version, protocol, flags, length, id, group and total length stand |
| MessageBuffer.CommBuf.constructor | src/cc/AsyncComm/CommBuf.h:83-89 | a buffer of the given length and the header, added in 32 bits that wrap, with the header written first |
| MessageBuffer.CommBuf.Append | src/cc/AsyncComm/CommBuf.h:143-169 | what is appended stands behind what was appended before; the buffer is overrun if and only if all of it is longer than the buffer |
| Keepalive.AppendEvent | src/cc/Hyperspace/Event.h:90-158 | an event is appended in its encoding |
| Keepalive.AppendNotification | src/cc/Hyperspace/Protocol.cc:118-119 | a notification is appended as handle, event id, mask and payload |
| Keepalive.AppendNotifications | src/cc/Hyperspace/Protocol.cc:117-124 | the second loop appends the encoding of the whole list |
| Keepalive.ComputeLength | src/cc/Hyperspace/Protocol.cc:104-110 | the first loop sums up the exact length of the message modulo 2^32 |
| Keepalive.CreateServerKeepalive | src/cc/Hyperspace/Protocol.cc:100-127 | header and encoding of the whole queue are appended; they fill the buffer exactly, or go over its end if and only if their length has more than 32 bits |
| Keepalive.HeaderWraps | src/cc/AsyncComm/CommBuf.h:83-85 | a notification for which the summed length has 32 bits and the length with the header has not |
| ClientHandler.Process | src/cc/Hyperspace/ClientKeepaliveHandler.cc:156-216 | the notification loop only adds to what was acted on and to the grants learned of, keeps the open handles and the session id, and never revives a dead or expired client |
| ClientHandler.ClientKeepaliveHandler.constructor | src/cc/Hyperspace/ClientKeepaliveHandler.cc:41-85 | a client that knows no event and no handle |
| ClientHandler.ClientKeepaliveHandler.OpenReplied | src/cc/Hyperspace/Session.cc:117-124 | an opened handle is registered with the generation of the reply and no sequencer |
| ClientHandler.ClientKeepaliveHandler.LockCalled | src/cc/Hyperspace/Session.cc:449-461 | `lock` is refused when the lock is held or awaited; otherwise the caller's sequencer is attached |
| ClientHandler.ClientKeepaliveHandler.LockReplied | src/cc/Hyperspace/Session.cc:469-489 | a grant fills sequencer and handle with its generation; otherwise the lock is awaited |
| ClientHandler.ClientKeepaliveHandler.TryLockReplied | src/cc/Hyperspace/Session.cc:533-541 | a grant sets the generation of the handle and detaches its sequencer |
| ClientHandler.ClientKeepaliveHandler.ReleaseReplied | src/cc/Hyperspace/Session.cc:571-576 | the handle is no longer locked and keeps its generation |
| ClientHandler.ClientKeepaliveHandler.Dispatch | src/cc/Hyperspace/ClientKeepaliveHandler.cc:167-215 | what one event does to its handle, the sequencer and the last known event; an event already known is not acted on, but a grant has stored its generation; a new grant without a sequencer is fatal |
| ClientHandler.ClientKeepaliveHandler.ProcessOne | src/cc/Hyperspace/ClientKeepaliveHandler.cc:158-216 | one turn of the loop: decoding, the assertion that the handle is known, the duplicate filter and the update |
| ClientHandler.ClientKeepaliveHandler.ProcessNotifications | src/cc/Hyperspace/ClientKeepaliveHandler.cc:156-216 | the whole loop is `Process`, on every message, malformed ones included |
| ClientHandler.ClientKeepaliveHandler.Handle | src/cc/Hyperspace/ClientKeepaliveHandler.cc:106-240 | the keepalive branch: errors, foreign sessions, the loop, and the acknowledgement it sends |
| ClientHandler.ProcessEncoded | src/cc/Hyperspace/ClientKeepaliveHandler.cc:156-216 | on the encoding of a list the loop acts on the list, entry by entry |
| ClientHandler.HandleEncoded | src/cc/Hyperspace/ClientKeepaliveHandler.cc:229-238 | a server keepalive leads to acting on its list and to an answer that acknowledges the last known event |
| ClientHandler.DatagramHandled | src/cc/Hyperspace/ClientKeepaliveHandler.cc:135-245 | any datagram of a server: a client without a session takes over its id, the list is acted on and acknowledged, and a client of another session fails its assertion after that |
| ClientHandler.TruncatedNotAnswered | src/cc/Hyperspace/ClientKeepaliveHandler.cc:156-252 | a list that breaks off is acted on as far as it goes and not acknowledged |
| ClientHandler.OtherMessagesIgnored | src/cc/Hyperspace/ClientKeepaliveHandler.cc:105-128 | a message of another kind changes nothing |
| ClientHandler.SurvivesExactly | src/cc/Hyperspace/ClientKeepaliveHandler.cc:160-213 | the client survives any list if and only if every handle in it is open and every grant that is new where it stands finds a sequencer |
| ClientHandler.ActsOnNews | src/cc/Hyperspace/ClientKeepaliveHandler.cc:156-216 | on any list it survives, the client acts on exactly the entries that are new where they stand, in order, and knows the farthest |
| ClientHandler.NewsAre | src/cc/Hyperspace/ClientKeepaliveHandler.cc:156-216 | an entry is among these if and only if its id is larger than the last known one and all ids before it |
| ClientHandler.UnknownKindSetsLast | src/cc/Hyperspace/ClientKeepaliveHandler.cc:199-216 | an event of an unknown kind makes its id the last known one, even if it is smaller |
| ClientHandler.CallLeaves | src/cc/Hyperspace/Session.cc:439-567 | what each call or reply leaves of status, mode, generation and sequencer of its handle, and that it changes no other |
| ClientHandler.AsksOnce | src/cc/Hyperspace/Session.cc:449-450 | after a grant, or while it waits, a handle cannot ask for the lock; after an open or a release it can |
| ClientHandler.ErrorExpires | src/cc/Hyperspace/ClientKeepaliveHandler.cc:138-144 | an error keepalive expires the client and is not answered |
| Sessions.EventCounts.Increment | src/cc/Hyperspace/Event.h:52-55 | the count of an event goes up by one, all others stay |
| Sessions.EventCounts.Decrement | src/cc/Hyperspace/Event.h:56-61 | the count of an event goes down by one, all others stay, and waiters are woken exactly at zero |
| Sessions.SessionData.constructor | src/cc/Hyperspace/SessionData.h:42-46 | a session with an empty queue and a fresh lease |
| Sessions.SessionData.AddNotification | src/cc/Hyperspace/SessionData.h:48-56 | a live session queues the notification behind the others and counts it; an expired one does neither |
| Sessions.SessionData.PurgeNotifications | src/cc/Hyperspace/SessionData.h:58-70 | erasing while iterating removes exactly the notifications up to the acknowledged id, keeps the others in order and lowers their counts |
| Sessions.SessionData.DropNotifications | src/cc/Hyperspace/SessionData.h:101-106 | the whole queue is dropped and every count it held is given back |
| Sessions.SessionData.Expire | src/cc/Hyperspace/SessionData.h:96-107 | expiry empties the queue and gives the counts back, once |
| Sessions.SessionData.RenewLease | src/cc/Hyperspace/SessionData.h:72-89 | the lease is renewed unless it has run out; a lease that has run out ends the session and gives its counts back |
| Sessions.SessionData.Sweep | src/cc/Hyperspace/Master.cc:251-290 | the timer expires and unregisters the session if and only if its lease has run out |
| Sessions.SessionData.HandleKeepalive | src/cc/Hyperspace/ServerKeepaliveHandler.cc:75-122 | the server's keepalive branch: decoding, renewing, purging, expiring on shutdown, and the datagram it sends |
| Leases.KeepaliveAnswered | src/cc/Hyperspace/ServerKeepaliveHandler.cc:82-122 | a keepalive within the lease renews it from now on and is answered with the rest of the queue; a later one ends the session and is answered with the error |
| Leases.EndedExactlyWhenLate | src/cc/Hyperspace/SessionData.h:72-94 | over any run of keepalives and sweeps, a session is ended if and only if one of them comes later than a lease after the last keepalive before it |
| Leases.KeptAlive | src/cc/Hyperspace/SessionData.h:42-94 | a new session whose keepalives are never more than a lease apart is kept by every sweep in between |
| Leases.ShutdownEnds | src/cc/Hyperspace/Master.cc:224-236 | a shutdown message ends the session at once without an answer, and later keepalives are answered with the error |
| Leases.SweptIsGone | src/cc/Hyperspace/Master.cc:251-290 | a session that the timer has found is empty, and later keepalives are answered with the error |
| Leases.RemoveExpiredSessions | src/cc/Hyperspace/Master.cc:251-290 | the timer's loop takes out exactly the sessions whose lease has run out |
| Sessions.DecrementedBy | src/cc/Hyperspace/Event.h:56-61 | giving back a list of notifications lowers each event's count by its number of entries |
| Sessions.OpKeepsInv | src/cc/Hyperspace/SessionData.h:48-107 | every operation on any session keeps all counts exact and expired queues empty |
| Sessions.CountIsExact | src/cc/Hyperspace/SessionData.h:48-107 | after every run the count of an event is the number of its entries in all queues, never negative, and zero exactly when each was acknowledged or dropped; an expired session's queue is empty |
| NotificationProtocol.PurgeCuts | src/cc/Hyperspace/SessionData.h:58-70 | on increasing ids a purge takes a prefix of the queue |
| NotificationProtocol.ActSegment | src/cc/Hyperspace/ClientKeepaliveHandler.cc:156-216 | a client that acted on a prefix and receives any stretch of the queue that starts within it has acted on the longer of the two |
| NotificationProtocol.SurvivesInOrder | src/cc/Hyperspace/ClientKeepaliveHandler.cc:160-213 | with increasing ids, if and only if it accepts each notification in the state before the datagram |
| NotificationProtocol.StepOk | src/cc/Hyperspace/ServerKeepaliveHandler.cc:75-122 | every step (queue, send, receive, expire on either side, over a network that drops, repeats and reorders) keeps the invariant |
| NotificationProtocol.RunOk | src/cc/Hyperspace/ServerKeepaliveHandler.cc:75-122 | the invariant holds after every run |
| NotificationProtocol.DeliveredInOrder | src/cc/Hyperspace/ClientKeepaliveHandler.cc:156-238 | with increasing event ids, in every run the client has acted on a gap-free, repeat-free, in-order prefix, and the server has purged only what the client acted on |
| NotificationProtocol.CurrentDatagramCatchesUp | src/cc/Hyperspace/Protocol.cc:100-127 | a client survives the current datagram if and only if it accepts each notification in it; it is then up to date from wherever it was, and its answer empties the queue |
| NotificationLimits.OtherQueuesLose | src/cc/Hyperspace/ClientKeepaliveHandler.cc:173-177 | whenever ids do not increase there is a run in which the server purges a notification the client never acted on |
| NotificationLimits.SafeExactlyWhenIncreasing | src/cc/Hyperspace/ClientKeepaliveHandler.cc:173-177 | the server purges only what the client acted on, in every run, if and only if the queued event ids increase |
| EventDelivery.EventQueues.DeliverEventNotifications | src/cc/Hyperspace/Master.cc:1016-1035 | the loop queues one notification for every handle whose mask has the event's bit, in order, except for sessions that have expired |
| EventDelivery.InterestedAre | src/cc/Hyperspace/Master.cc:1021-1031 | a handle is notified if and only if it is of the node and its mask has the event's bit |
| EventDelivery.EnqueuedAllIs | src/cc/Hyperspace/Master.cc:1021-1031 | each session that has not expired gets the notifications for its handles, in order, behind what it has, and nothing else |
| EventDelivery.OrderlyIncreases | src/cc/Hyperspace/Master.cc:1016-1035 | from an orderly state every schedule of what is under way keeps all queues increasing |
| EventDelivery.DisorderBreaks | src/cc/Hyperspace/Master.cc:1016-1035 | from any other state some schedule breaks the order of a queue |
| EventDelivery.AlwaysIncreaseExactly | src/cc/Hyperspace/Master.cc:1016-1035 | every schedule of the notifications under way keeps all queues increasing if and only if no two of them are for one session that has not expired and each of those has a larger id than its queue |
| EventRuns.CreateOrderlyExactly | src/cc/Hyperspace/Event.h:41-45 | making an event keeps that so if and only if its handles are of different sessions and nothing is under way for these, expired sessions aside |
| EventRuns.SafeThroughoutExactly | src/cc/Hyperspace/Master.cc:1016-1035 | throughout a run no schedule can break the order of a queue if and only if every event is made apart in this sense |
| EventRuns.DeliveredWhenApart | src/cc/Hyperspace/Master.cc:1016-1035 | then a session that is filled by these events delivers them in order over any network |
| EventRuns.OneEventTwice | src/cc/Hyperspace/Master.cc:1021-1031 | one event for two handles of a session puts the same id into its queue twice |
| ClientGenerations.SequencerIsLatestGrant | src/cc/Hyperspace/Session.cc:439-501 | in every run, over any network, a handle that holds the lock by a `lock` call has in its sequencer the latest grant that the client learned of, by reply or by notification |
| ClientGenerations.DatagramGeneration | src/cc/Hyperspace/ClientKeepaliveHandler.cc:201-213 | any datagram that the client survives sets the generation of a handle to that of its last grant, known or not, and the latest grant to that of its last grant that is not known when the loop reaches it |
| ClientGenerations.GenerationAgreesExactly | src/cc/Hyperspace/Session.cc:587-600 | after any datagram that the client survives, `get_sequencer` hands out the latest grant if and only if the datagram has no grant for the handle (and it did before), or the generation of its last grant is that of its last new one, or of the latest grant before if none is new |
| ClientGenerations.DatagramGrants | src/cc/Hyperspace/ClientKeepaliveHandler.cc:201-213 | a datagram that is survived gives the lock to exactly the handles with a new grant in it, with mode and generation of the last one in their sequencer; all others keep status and sequencer, and no lock mode changes |
| ClientGenerations.WaiterIsAnswered | src/cc/Hyperspace/Session.cc:482-489 | a caller that waits is answered by any new grant for its handle |
| ClientGenerations.LastNewIs | src/cc/Hyperspace/ClientKeepaliveHandler.cc:201-206 | the last new grant has a larger id than the last known event and all entries before it, and no grant behind it has |
| ClientGenerations.HarmlessInOrder | src/cc/Hyperspace/ClientKeepaliveHandler.cc:201-206 | with increasing ids a datagram is harmless if and only if its last grant is not known or is the latest |
| ClientGenerations.OutOfOrderGrant | src/cc/Hyperspace/ClientKeepaliveHandler.cc:201-206 | with other ids that does not decide: a client and a datagram for which it holds and the generations disagree |
| GenerationRuns.AgreesThroughoutExactly | src/cc/Hyperspace/Session.cc:587-600 | throughout every run, with any queue, `get_sequencer` of a live client hands out the latest grant if and only if every datagram the client looks at and survives is harmless in this sense |
| GenerationRuns.StaleGrantSetsBack | src/cc/Hyperspace/ClientKeepaliveHandler.cc:201-206 | a run from the start in which a datagram that arrives twice sets the generation back from 7 to 5 while the sequencer says 7 |
| FrameReceiver.ParseConcat | src/cc/AsyncComm/IOHandlerData.cc:229-331 | parsing a stream in two parts is parsing it at once |
| FrameReceiver.LateExactlyForEmptyBody | src/cc/AsyncComm/IOHandlerData.cc:229-331 | for every stream: all complete frames have been handed out, except the last one if and only if the stream is a sequence of whole frames that ends with one without a body |
| FrameReceiver.IncomingMessage.constructor | src/cc/AsyncComm/IOHandlerData.h:48-53 | the receiver starts before a header |
| FrameReceiver.IncomingMessage.Reset | src/cc/AsyncComm/IOHandlerData.h:55-61 | the receiver is back before a header and what was handed out stays |
| FrameReceiver.IncomingMessage.ReadHeader | src/cc/AsyncComm/IOHandlerData.cc:256-287 | header bytes arrive in the header buffer; when more follow a complete header, the message is allocated and the header copied into it; a length below that of a header marks the stream as corrupt |
| FrameReceiver.IncomingMessage.ReadBody | src/cc/AsyncComm/IOHandlerData.cc:288-326 | body bytes arrive behind the header; a complete message is handed out and the receiver reset |
| FrameReceiver.IncomingMessage.HandleRead | src/cc/AsyncComm/IOHandlerData.cc:229-331 | a read event of any size moves the receiver from the parse of the bytes before it to the parse of all bytes |
| FrameReceiver.FragmentationDoesNotMatter | src/cc/AsyncComm/IOHandlerData.cc:229-331 | for every stream and every split into read events, frames handed out, the part under way and corruption are those of the bytes received so far |
| FrameReceiver.CorruptStays | src/cc/AsyncComm/IOHandlerData.cc:270-273 | a stream once found corrupt stays so |
| SendQueue.FlushTakesPrefix | src/cc/AsyncComm/IOHandlerData.cc:418-492 | under any sequence of partial writes a flush gives the socket a prefix of what is unsent and keeps exactly the rest |
| SendQueue.FlushEmpties | src/cc/AsyncComm/IOHandlerData.cc:418-492 | a flush whose writes all succeed empties the queue |
| SendQueue.FlushStops | src/cc/AsyncComm/IOHandlerData.cc:418-492 | a flush goes on while the socket takes bytes; it leaves something only when the socket would block or is broken, and fails if and only if it is broken |
| SendQueue.Outgoing.Writev | src/cc/AsyncComm/IOHandlerData.cc:88-99 | the socket takes a positive part of what it is offered, or nothing |
| SendQueue.Outgoing.FlushSendQueue | src/cc/AsyncComm/IOHandlerData.cc:418-492 | the loop is the flush, terminates, and drops a message exactly when all of it is written |
| SendQueue.Outgoing.SendMessage | src/cc/AsyncComm/IOHandlerData.cc:381-412 | a send queues the message, flushes, and adds or removes write interest when the queue changes between empty and not |
| SendQueue.Outgoing.HandleWriteReadiness | src/cc/AsyncComm/IOHandlerData.cc:337-377 | write readiness flushes and drops the interest exactly when the queue has become empty |
| SendQueue.Gather | src/cc/AsyncComm/IOHandlerData.cc:428-445 | the vector offered to the socket is the unsent part of both buffers in order |
| SendQueue.MovePointers | src/cc/AsyncComm/IOHandlerData.cc:464-484 | after a partial write the pointers stand behind exactly the bytes taken |
| SendQueue.NothingLostOrReordered | src/cc/AsyncComm/IOHandlerData.cc:381-492 | in every run, bytes taken by the socket followed by the unsent rest are the concatenation of all messages sent, and a non-empty queue of a sound connection has write interest |
| SendQueue.WritableSettles | src/cc/AsyncComm/IOHandlerData.cc:333-379 | the first readiness event establishes the connection or breaks it; every later one that does not break it leaves write interest exactly while something is queued |
| SendQueue.InterestStaysRight | src/cc/AsyncComm/IOHandlerData.cc:333-416 | from then on write interest is registered exactly while something is queued, in every run |
| MessageTransport.BuiltMessageIsFrame | src/cc/AsyncComm/CommBuf.h:83-111 | a message built by the header builder is one frame with a body |
| MessageTransport.EmptyMessageIsLate | src/cc/AsyncComm/IOHandlerData.cc:256-287 | a message without a body is one complete frame and is not handed out when it has all arrived |
| MessageTransport.ParsePrefix | src/cc/AsyncComm/IOHandlerData.cc:229-331 | any prefix of a concatenation of frames parses to the frames it contains whole |
| MessageTransport.ReceiverSeesMessagesSent | src/cc/AsyncComm/IOHandlerData.cc:229-492 | end to end: over any partial writes and any fragmentation the receiver has handed out exactly the messages whose bytes have all arrived, in order |
| RequestCache.RequestCache.constructor | src/cc/AsyncComm/RequestCache.h:51 | the cache starts empty |
| RequestCache.RequestCache.LinkTail | src/cc/AsyncComm/RequestCache.cc:49-58 | a node is linked behind the tail; all other links stay |
| RequestCache.RequestCache.Insert | src/cc/AsyncComm/RequestCache.cc:35-61 | an unknown id is appended as the newest request; a known one is refused and nothing changes; list and map keep agreeing |
| RequestCache.RequestCache.Unlink | src/cc/AsyncComm/RequestCache.cc:77-85 | a node is linked out of the middle or either end |
| RequestCache.RequestCache.Remove | src/cc/AsyncComm/RequestCache.cc:64-92 | exactly the request with the id is taken out, and its waiter returned; an unknown id changes nothing |
| RequestCache.RequestCache.UnlinkHead | src/cc/AsyncComm/RequestCache.cc:103-108 | the head is linked out |
| RequestCache.RequestCache.TakeHead | src/cc/AsyncComm/RequestCache.cc:98-110 | the oldest request leaves list and map |
| RequestCache.RequestCache.GetNextTimeout | src/cc/AsyncComm/RequestCache.cc:96-127 | expired purged requests at the head are dropped, the first expired live one is returned, and otherwise the next expiry |
| RequestCache.RequestCache.PurgeRequests | src/cc/AsyncComm/RequestCache.cc:131-139 | exactly the requests of the connection are marked, none taken out, and their waiters told, newest first |
| RequestCache.RequestCache.HandleTimeouts | src/cc/AsyncComm/Reactor.cc:142-146 | the drain leaves the cache from its first unexpired request on and reports the live ones before it, in order |
| RequestCache.RequestCache.MapHoldsIds | src/cc/AsyncComm/RequestCache.cc:35-61 | the map holds exactly the ids in the list |
| RequestCache.NextTimeoutDrains | src/cc/AsyncComm/RequestCache.cc:96-127 | one timeout and then a drain is a drain |
| RequestCache.WithoutAt | src/cc/AsyncComm/RequestCache.cc:64-92 | with distinct ids, removal takes out exactly one position |
| RequestOutcomes.CountDrained | src/cc/AsyncComm/Reactor.cc:142-146 | a drain moves waiters from live to timed out, and loses none |
| RequestOutcomes.CountClosed | src/cc/AsyncComm/RequestCache.cc:131-139 | closing a connection moves waiters from live to cancelled, and loses none |
| RequestOutcomes.RunAccounted | src/cc/AsyncComm/RequestCache.cc:35-139 | in every run, requests of a waiter plus responses that came too late are its live requests plus what it heard |
| RequestOutcomes.LateRun | src/cc/AsyncComm/RequestCache.cc:64-92 | the run has a response for a purged request exactly when the count of late responses has grown |
| RequestOutcomes.ConservedExactly | src/cc/AsyncComm/RequestCache.cc:35-139 | inserted = live + responded + timed out + cancelled for every waiter, if and only if no response of the run hits a request of a closed connection |
| RequestOutcomes.HeardOnce | src/cc/AsyncComm/RequestCache.cc:35-139 | without such a response a waiter of one request hears at most once, and exactly once when its request is no longer live |
| RequestOutcomes.AnsweredAfterClose | src/cc/AsyncComm/RequestCache.cc:64-92 | a concrete run in which a waiter hears a cancellation and then a response |
| RequestOutcomes.DrainCompleteExactly | src/cc/AsyncComm/Reactor.cc:142-146 | drains never leave an overdue live request, at any time, if and only if no live request stands behind one that expires later |
| RequestOutcomes.TimeoutsTell | src/cc/AsyncComm/Reactor.cc:142-146 | a drain tells of a timeout, and of nothing else, exactly those whose live request has expired at the head |
| RequestOutcomes.CloseTells | src/cc/AsyncComm/RequestCache.cc:131-139 | closing a connection tells exactly those with a request on it that it is cancelled |
| RequestOutcomes.NewestFirst | src/cc/AsyncComm/RequestCache.cc:131-139 | the newest request of a connection is told first |
| RequestOutcomes.ResponseTells | src/cc/AsyncComm/RequestCache.cc:64-92 | a response is told to the one that waits for its request, which is then forgotten; any other changes nothing |
| RequestOutcomes.FirstExpiryIsEarliest | src/cc/AsyncComm/RequestCache.cc:96-127 | the time to wait for is the earliest expiry when requests expire in the order in which they came |
| RequestOutcomes.LongTimeoutHidesShort | src/cc/AsyncComm/Reactor.cc:142-146 | a run of three steps that leaves an overdue request behind one with a longer timeout |
| RequestOutcomes.NothingOverdueAfterDrain | src/cc/AsyncComm/Reactor.cc:142-146 | when requests are added in the order they expire, a drain after any run leaves nothing overdue |
| LockMaster.NodeData.constructor | src/cc/Hyperspace/NodeData.h:47-48 | a node nobody has opened |
| LockMaster.NodeData.LockHandle | src/cc/Hyperspace/Master.cc:878-886 | the handle becomes a holder in the mode and its flag is set |
| LockMaster.NodeData.Lock | src/cc/Hyperspace/Master.cc:815-871 | busy, pending, failed or granted with a new stored generation, as the lock model says |
| LockMaster.NodeData.ReadGeneration | src/cc/Hyperspace/Master.cc:503-511 | the generation is read from the attribute, or started at 1 |
| LockMaster.NodeData.Open | src/cc/Hyperspace/Master.cc:479-564 | the lock part of open: conflicts, the generation over deadlock retries, creation, the grant, and the generation in the answer |
| LockMaster.NodeData.TakeShared | src/cc/Hyperspace/Master.cc:974-984 | the loop takes exactly the shared requests at the front and collects their open handles in order |
| LockMaster.NodeData.TakeFront | src/cc/Hyperspace/Master.cc:963-985 | the front exclusive request alone or all shared requests at the front leave the queue |
| LockMaster.NodeData.LockGroup | src/cc/Hyperspace/Master.cc:998-1002 | every handle of the group becomes a holder; the assertion fails exactly when the releasing handle is among them |
| LockMaster.NodeData.PassOn | src/cc/Hyperspace/Master.cc:963-1008 | the hand-over, including a database failure after the generation was raised |
| LockMaster.NodeData.ReleaseLock | src/cc/Hyperspace/Master.cc:933-1009 | release as written is the model's release without guards |
| Locks.SharedPrefix | src/cc/Hyperspace/Master.cc:974-984 | the longest run of shared requests at the front |
| LockSafety.ReleaseAgreesExactly | src/cc/Hyperspace/Master.cc:933-1009 | from agreement of mode, holders and flags, a release keeps it if and only if a stated condition holds: for the code as written, with only the reset guarded, and with reset and hand-over guarded |
| LockSafety.ReleaseAbortsExactly | src/cc/Hyperspace/Master.cc:938-1002 | in every state, a release by a holder fails an assertion if and only if the node does not name it as its holder or the handle waits for itself in the front group; the first never happens in agreement |
| LockSafety.StepAgreesExactly | src/cc/Hyperspace/Master.cc:776-1121 | a step keeps the agreement if and only if it is not an unsafe release |
| LockSafety.StepAgrees | src/cc/Hyperspace/Master.cc:776-1121 | every step keeps the agreement, guarded for all locks and as written for exclusive locks |
| LockSafety.RunAgrees | src/cc/Hyperspace/Master.cc:776-1121 | so does every run |
| LockSafety.ExclusiveIsAlone | src/cc/Hyperspace/Master.cc:776-1121 | in every run an exclusive holder is the only holder, no shared holder exists and the mode says so |
| LockSafety.AgreeThroughoutExactly | src/cc/Hyperspace/Master.cc:776-1121 | mode, holders and flags agree throughout a run, in each of the three forms, if and only if every release of the run is safe |
| LockSafety.RunAbortsExactly | src/cc/Hyperspace/Master.cc:938-1002 | every run, in each of the three forms, fails an assertion if and only if some release of it comes from a holder that the node does not name or that waits for itself |
| LockSafety.SafeRunAbortsExactly | src/cc/Hyperspace/Master.cc:938-1003 | while every release is safe, only the second of these happens |
| LockSafety.HandOverTakesFront | src/cc/Hyperspace/Master.cc:963-1008 | a hand-over takes the front group from the queue, leaves the rest in order, and grants to exactly the open handles of the group if the database takes the generation, and to nobody if not |
| LockSafety.StuckExactly | src/cc/Hyperspace/Master.cc:963-1008 | the release of the only holder leaves the lock free with an open waiter if and only if all handles of the front group are destroyed, or the database refuses the generation, and a handle further back is open |
| LockSafety.GrantedExactly | src/cc/Hyperspace/Master.cc:815-851 | from agreement, a request is granted at once if and only if the database takes the generation and nobody holds the lock or it joins shared holders for whom nobody waits |
| LockWaiters.WaitersKeepOrder | src/cc/Hyperspace/Master.cc:815-984 | in every run without a restart waiters leave the queue in the order they entered it |
| LockWaiters.StepServesExactly | src/cc/Hyperspace/Master.cc:963-1008 | a step grants every request it takes from the queue whose handle is open, if and only if it does not fail to store a hand-over to open handles |
| LockWaiters.ServesThroughoutExactly | src/cc/Hyperspace/Master.cc:963-1008 | in every run without a restart, each request that leaves the queue is granted or has a destroyed handle, if and only if every hand-over to open handles is stored |
| LockWaiters.StepSticksExactly | src/cc/Hyperspace/Master.cc:963-1008 | a step leaves the lock free beside an open waiter if and only if it is such a release, or queues a request while the mode is set and nobody holds the lock |
| LockWaiters.NeverStuckExactly | src/cc/Hyperspace/Master.cc:776-1121 | throughout a run, in each of the three forms, no open handle waits for a free lock if and only if no step of the run is one of these |
| LockSafety.StepHeldExactly | src/cc/Hyperspace/Master.cc:1103-1121 | a step keeps the lock with open handles and handles being destroyed if and only if it is not the grant of a request whose handle has been destroyed |
| LockSafety.HeldThroughoutExactly | src/cc/Hyperspace/Master.cc:1103-1121 | so it is throughout every run: if and only if no such request is granted |
| LockExamples.AsWrittenOverlooksSharedHolder | src/cc/Hyperspace/Master.cc:961 | a run of a fresh node, as written, that grants an exclusive lock beside a shared holder |
| LockExamples.OverlookedHolderAborts | src/cc/Hyperspace/Master.cc:938-942 | the same run goes on, and the release of the overlooked holder fails an assertion |
| LockExamples.ResetAloneIsNotEnough | src/cc/Hyperspace/Master.cc:954-972 | a run in which, with the reset alone under the test, a hand-over grants an exclusive lock beside a shared holder |
| LockExamples.ReleaseByWaiterAborts | src/cc/Hyperspace/Master.cc:998-1002 | a run in which a handle that waits for its own lock fails the assertion |
| LockExamples.FreeLockWithWaiter | src/cc/Hyperspace/Master.cc:963-1008 | a run that leaves the lock free while an open handle waits, because the one in front is destroyed |
| LockExamples.FreeLockAfterFailure | src/cc/Hyperspace/Master.cc:989-994 | a run that does so with all handles open, because the database fails |
| LockExamples.LostRequest | src/cc/Hyperspace/Master.cc:989-994 | a run in which the request of an open handle leaves the queue and is not granted |
| LockExamples.OvertakenRequestHolds | src/cc/Hyperspace/Master.cc:792-811 | a run in which a destroyed handle is granted the lock |
| LockGenerations.StepFenced | src/cc/Hyperspace/Master.cc:503-564 | every step keeps: all grants are bounded by the stored generation, and that by the one in memory |
| LockGenerations.RunFenced | src/cc/Hyperspace/Master.cc:503-564 | so does every run |
| LockGenerations.GrantsIncrease | src/cc/Hyperspace/Master.cc:853-871 | in every run, over restarts, deadlocks and database failures, successive grants of a node carry strictly increasing generations, and the stored attribute bounds them all |
| LockGenerations.StepGrantsNew | src/cc/Hyperspace/Master.cc:853-1003 | a step that records a grant or makes anybody a holder grants with a generation that is stored, recorded and larger than all before it |
| LockGenerations.LockAnswer | src/cc/Hyperspace/Master.cc:815-871 | in every run a request is answered with the generation of its own grant, which is stored, the last recorded and larger than that of every grant before it; any other answer grants nothing |
| LockGenerations.OpenAnswer | src/cc/Hyperspace/Master.cc:471-571 | in every run an open succeeds if and only if the database takes it, the node exists or is made, and no holder excludes it; one with a lock gets a new generation |
| LockGenerations.StoredOnceMade | src/cc/Hyperspace/Master.cc:514-523 | in every run a node that exists has a generation in the database |
| LockGenerations.OpenRaises | src/cc/Hyperspace/Master.cc:550-555 | each attempt at an open with a lock raises the generation once, also those that end in a deadlock |
| LockGenerations.GenerationCounts | src/cc/Hyperspace/Master.cc:853-994 | while no handle is opened, the generation counts the attempts to grant the lock, stored or not |
| LockGenerations.RestartForgets | src/cc/Hyperspace/Master.cc:172-178 | after a restart nobody holds the lock, waits for it or has a handle, and the database is as it was |
| LockGenerations.RestartKeepsFencing | src/cc/Hyperspace/Master.cc:503-511 | the first grant after a restart of the master is larger than every grant before it |
| Lexicographic.PrefixesTogether | src/cc/Hyperspace/BerkeleyDbFilesystem.cc:444-469 | keys with a common prefix stand together in the order of the database |
| Lexicographic.Seek | src/cc/Hyperspace/BerkeleyDbFilesystem.cc:444 | setting a cursor finds the first key at or behind a position |
| Lexicographic.Next | src/cc/Hyperspace/BerkeleyDbFilesystem.cc:467 | the next key is the first one behind the current one |
| Namespace.BerkeleyDbFilesystem.constructor | src/cc/Hyperspace/BerkeleyDbFilesystem.cc:87-101 | the database starts with the root, /hyperspace/ and /hyperspace/metadata |
| Namespace.BerkeleyDbFilesystem.MakeDirectory | src/cc/Hyperspace/BerkeleyDbFilesystem.cc:376-427 | mkdir with its two errors |
| Namespace.BerkeleyDbFilesystem.CreateFile | src/cc/Hyperspace/BerkeleyDbFilesystem.cc:540-582 | create with its three errors, the value of the parent and the mark of temporary files |
| Namespace.BerkeleyDbFilesystem.BuildAttrKey | src/cc/Hyperspace/BerkeleyDbFilesystem.cc:698-713 | the key of an attribute, or an error when the node is missing |
| Namespace.BerkeleyDbFilesystem.SetXattr | src/cc/Hyperspace/BerkeleyDbFilesystem.cc:189-215 | an attribute is put under its key |
| Namespace.BerkeleyDbFilesystem.DelXattr | src/cc/Hyperspace/BerkeleyDbFilesystem.cc:350-371 | an attribute is deleted, or reported missing |
| Namespace.BerkeleyDbFilesystem.DirectoryListing | src/cc/Hyperspace/BerkeleyDbFilesystem.cc:586-667 | the scan lists nothing but children of keys below the directory and the names of all of them, in the order of the keys, each time the name changes; it is refused exactly when the first key lacks the prefix |
| Namespace.BerkeleyDbFilesystem.ScanFor | src/cc/Hyperspace/BerkeleyDbFilesystem.cc:444-469 | the scan of unlink looks at the keys with the name as prefix and at the first key in any case, and collects each key to delete once |
| Namespace.BerkeleyDbFilesystem.DeleteKeys | src/cc/Hyperspace/BerkeleyDbFilesystem.cc:479-484 | exactly the collected keys are deleted, each found |
| Namespace.BerkeleyDbFilesystem.UnlinkNode | src/cc/Hyperspace/BerkeleyDbFilesystem.cc:430-495 | unlink: not empty, contradictory, missing, or the deletion |
| NamespaceLaws.ListingIsChildren | src/cc/Hyperspace/BerkeleyDbFilesystem.cc:586-667 | in a well-formed namespace a listing of an existing directory is, as a set, exactly its immediate children with the right kind |
| AdjacentDuplicates.RepeatsExactly | src/cc/Hyperspace/BerkeleyDbFilesystem.cc:611-650 | dropping only repetitions that stand next to each other leaves one exactly when a name comes back after another |
| NamespaceOrder.TwiceExactly | src/cc/Hyperspace/BerkeleyDbFilesystem.cc:611-650 | a listing names a child twice if and only if the directory has a file with an attribute and a key that sorts between the two |
| NamespaceOrder.TornComesBack | src/cc/Hyperspace/BerkeleyDbFilesystem.cc:611-650 | such a file is named, then another child, then the file again |
| NamespaceOrder.ComesBackTorn | src/cc/Hyperspace/BerkeleyDbFilesystem.cc:611-650 | only such files come back; directories and attributes stand together |
| NamespaceLaws.ExistingIsListed | src/cc/Hyperspace/BerkeleyDbFilesystem.cc:604-609 | an existing directory is never refused |
| NamespaceLaws.RefusedExactly | src/cc/Hyperspace/BerkeleyDbFilesystem.cc:602-609 | a directory is refused if and only if it is missing and some key sorts behind it |
| NamespaceLaws.MissingIsEmpty | src/cc/Hyperspace/BerkeleyDbFilesystem.cc:602-609 | a missing directory that is not refused is listed as empty |
| NamespaceUpdates.MkdirKeepsExactly | src/cc/Hyperspace/BerkeleyDbFilesystem.cc:376-427 | a successful mkdir keeps the namespace well formed if and only if the name is not already a file |
| NamespaceUpdates.CreateKeeps | src/cc/Hyperspace/BerkeleyDbFilesystem.cc:540-582 | create keeps the namespace well formed |
| NamespaceUpdates.SetAttrKeeps | src/cc/Hyperspace/BerkeleyDbFilesystem.cc:189-215 | setting an attribute keeps the namespace well formed |
| NamespaceUpdates.AttrKeyInjective | src/cc/Hyperspace/BerkeleyDbFilesystem.cc:698-713 | different attributes of different nodes have different keys |
| NamespaceUpdates.SetThenGet | src/cc/Hyperspace/BerkeleyDbFilesystem.cc:698-713 | setting an attribute changes what is read for that node and name, and for no other |
| NamespaceReads.SetExactly | src/cc/Hyperspace/BerkeleyDbFilesystem.cc:189-215 | setting an attribute succeeds if and only if the node exists, and changes nothing otherwise |
| NamespaceReads.DeleteExactly | src/cc/Hyperspace/BerkeleyDbFilesystem.cc:350-371 | deleting an attribute succeeds if and only if it is there to be read, and changes nothing otherwise |
| NamespaceReads.DeleteThenGet | src/cc/Hyperspace/BerkeleyDbFilesystem.cc:350-371 | a deleted attribute is not read any more, and every other attribute of every node is read as before |
| NamespaceReads.DeleteUndoesSet | src/cc/Hyperspace/BerkeleyDbFilesystem.cc:350-371 | setting a missing attribute and deleting it gives the database back |
| NamespaceReads.CreateExactly | src/cc/Hyperspace/BerkeleyDbFilesystem.cc:540-582 | when a file can be created, with which errors it cannot, and its value |
| NamespaceReads.CreateThenGet | src/cc/Hyperspace/BerkeleyDbFilesystem.cc:540-582 | a new file has no attribute but the mark of a temporary one, and every other node has the attributes it had |
| NamespaceReads.MkdirExactly | src/cc/Hyperspace/BerkeleyDbFilesystem.cc:376-427 | when a directory can be made, and with which errors it cannot |
| NamespaceReads.MkdirThenGet | src/cc/Hyperspace/BerkeleyDbFilesystem.cc:376-427 | a new directory has no attribute unless a file of its name hides it, and every other node has the attributes it had |
| NamespaceReads.UnlinkThenGet | src/cc/Hyperspace/BerkeleyDbFilesystem.cc:430-495 | a removed node is gone with its attributes, and every other node has the attributes it had |
| NamespaceRemoval.UnlinkFile | src/cc/Hyperspace/BerkeleyDbFilesystem.cc:430-495 | unlink of a file removes exactly its key and its attribute keys |
| NamespaceRemoval.UnlinkDirectory | src/cc/Hyperspace/BerkeleyDbFilesystem.cc:430-495 | unlink of a directory removes exactly its key and its attribute keys, or, if and only if it has a child, is refused and changes nothing |
| NamespaceRemoval.UnlinkMissingExactly | src/cc/Hyperspace/BerkeleyDbFilesystem.cc:444-466 | unlink of a missing name reports it missing if and only if the key behind it is passed over; otherwise that key of another node blocks or is deleted |
| NamespaceRemoval.UnlinkMissingDeletesOther | src/cc/Hyperspace/BerkeleyDbFilesystem.cc:444-466 | a concrete namespace in which unlinking the missing /a deletes /b |
| NamespaceRemoval.UnlinkKeeps | src/cc/Hyperspace/BerkeleyDbFilesystem.cc:430-495 | unlink of an existing name keeps the namespace well formed |
| NamespaceRemoval.RemoveOneExactly | src/cc/Hyperspace/BerkeleyDbFilesystem.cc:479-484 | one key can go from a well-formed namespace if and only if no other key has it as owner or lies below it |
| NamespaceRemoval.UnlinkKeepsExactly | src/cc/Hyperspace/BerkeleyDbFilesystem.cc:430-495 | unlink of any name keeps the namespace well formed if and only if the name exists, or the key behind it is left alone, or no other key needs that key |
| NamespaceRemoval.StepKeepsExactly | src/cc/Hyperspace/BerkeleyDbFilesystem.cc:376-582 | each operation keeps the namespace well formed if and only if it is proper: a mkdir not of a file, an unlink of an existing name or without harm |
| NamespaceRemoval.RunKeepsExactly | src/cc/Hyperspace/BerkeleyDbFilesystem.cc:376-582 | the namespace is well formed throughout a run if and only if every operation of it is proper |
| NamespaceExamples.MkdirOverFile | src/cc/Hyperspace/BerkeleyDbFilesystem.cc:406 | a run from the initial namespace after which mkdir makes a path both a file and a directory |
| NamespaceExamples.UnlinkOrphansAttribute | src/cc/Hyperspace/BerkeleyDbFilesystem.cc:444-466 | a run from the initial namespace after which unlinking the missing /a deletes /b and orphans its attribute |
| NamespaceExamples.FileListedTwice | src/cc/Hyperspace/BerkeleyDbFilesystem.cc:640 | a namespace made from the initial one in which every listing of the root names a file twice |
| NamespaceExamples.MissingIsListed | src/cc/Hyperspace/BerkeleyDbFilesystem.cc:602-609 | the missing directory `/z` of the initial namespace is listed as empty |
| NamespaceTree.MkdirAddsChild | src/cc/Hyperspace/BerkeleyDbFilesystem.cc:376-427 | a successful mkdir adds exactly one child to exactly one directory |
| NamespaceTree.CreateAddsChild | src/cc/Hyperspace/BerkeleyDbFilesystem.cc:540-582 | so does a successful create |
| NamespaceTree.UnlinkRemovesChild | src/cc/Hyperspace/BerkeleyDbFilesystem.cc:430-495 | a successful unlink takes exactly that child away and changes no other directory |
| NamespaceTree.AttributesKeepChildren | src/cc/Hyperspace/BerkeleyDbFilesystem.cc:698-713 | setting or deleting an attribute changes no children |
| NamespaceTree.UnlinkUndoesCreate | src/cc/Hyperspace/BerkeleyDbFilesystem.cc:430-582 | unlink after create gives back the database as it was |
| NamespaceTree.UnlinkUndoesMkdir | src/cc/Hyperspace/BerkeleyDbFilesystem.cc:376-495 | unlink after mkdir gives back the database as it was |
| NamespaceRemoval.DelAttrKeeps | src/cc/Hyperspace/BerkeleyDbFilesystem.cc:350-371 | deleting an attribute keeps the namespace well formed |
| NamespaceRemoval.InitialWellFormed | src/cc/Hyperspace/BerkeleyDbFilesystem.cc:87-101 | the initial namespace is well formed |
| RunningSums.AddSixteen | src/cc/Common/Checksum.cc:162-166 | the sixteen-fold unrolled step is sixteen single steps |
| RunningSums.AddBlock | src/cc/Common/Checksum.cc:177-186 | the unrolled loop and its remainder loop add a whole block, word by word |
| RunningSums.BlockExact | src/cc/Common/Checksum.cc:124-192 | if the largest possible sums fit in 32 bits, the wrapping sums of the block are the unwrapped ones, the bound holds, and they agree with sums reduced after every word |
| RunningSums.ReducedConcat | src/cc/Common/Checksum.cc:168-192 | reduced sums of a concatenation go on from those of its first part |
| AdlerChecksum.LongestDividedBlock | src/cc/Common/Checksum.cc:173-175 | 5552 is the longest block that cannot overflow after a division |
| AdlerChecksum.LongestFoldedBlock | src/cc/Common/Checksum.cc:129-133 | 5550 is the longest block that cannot overflow after a fold |
| AdlerChecksum.FoldBounds | src/cc/Common/Checksum.cc:140-152 | the bounds 0x1013a and 0xfff87 after a block, and that one subtraction then reduces |
| AdlerChecksum.FoldAgrees | src/cc/Common/Checksum.cc:140-141 | folding with 65536 - 65521 keeps the residue |
| AdlerChecksum.UpdateFolding | src/cc/Common/Checksum.cc:124-155 | never overflows and equals the byte-at-a-time sums of section 2.2 of RFC 1950, for every start and length |
| AdlerChecksum.Subtracted | src/cc/Common/Checksum.cc:144-154 | the last reduction gives the residues of both sums |
| AdlerChecksum.UpdateDividing | src/cc/Common/Checksum.cc:168-192 | never overflows and equals the same sums; an empty input returns the argument |
| AdlerChecksum.Adler32Folding | src/cc/Common/Checksum.cc:157-160 | the checksum of RFC 1950 |
| AdlerChecksum.Adler32Dividing | src/cc/Common/Checksum.cc:194-197 | the checksum of RFC 1950 |
| AdlerChecksum.UpdateIsConcat | src/cc/Common/Checksum.cc:124-192 | updating the checksum of x with y gives the checksum of x followed by y, for both programs |
| AdlerChecksum.ProgramsAgreeExactly | src/cc/Common/Checksum.cc:124-192 | the two programs agree if and only if there is input or both halves of the argument are reduced |
| AdlerChecksum.ProgramsDiffer | src/cc/Common/Checksum.cc:168-192 | the argument 65521 with no input, which one program returns and the other reduces to 0 |
| AdlerChecksum.ChecksumIs | src/cc/Common/Checksum.cc:125-196 | the halves are one more than the sum of the bytes and the sum of all values it takes, modulo 65521, as section 2.2 of RFC 1950 defines them |
| AdlerChecksum.ShortChecksums | src/cc/Common/Checksum.cc:125-196 | the checksums of no byte and of two |
| FletcherChecksum.Words | src/cc/Common/Checksum.cc:27-28 | the big-endian words of the bytes, an odd byte as an upper half |
| FletcherChecksum.LongestBlock | src/cc/Common/Checksum.cc:46-49 | 360 is the largest number of words that cannot overflow |
| FletcherChecksum.FoldAgrees | src/cc/Common/Checksum.cc:63-64 | folding keeps the residue modulo 65535 and never gives zero |
| RunningSums.ReducedIs | src/cc/Common/Checksum.cc:36-79 | the running sums are the plain and the position-weighted sum of the words on top of what they start from |
| FletcherChecksum.SumBlocks | src/cc/Common/Checksum.cc:44-65 | blocks of 360 words with one fold each never overflow and keep both residues |
| FletcherChecksum.AddOdd | src/cc/Common/Checksum.cc:68-73 | an odd last byte counts as a word with a zero low half |
| FletcherChecksum.Finish | src/cc/Common/Checksum.cc:75-78 | the second fold leaves 16 bits |
| FletcherChecksum.Fletcher32 | src/cc/Common/Checksum.cc:36-79 | the halves are the representatives in 1..65535 of the plain and the weighted sum of the words |
| FletcherChecksum.Fletcher32Aligned | src/cc/Common/Checksum.cc:87-117 | the aligned variant gives the same checksum of the same words |
| FletcherChecksum.OddIsPadded | src/cc/Common/Checksum.cc:68-73 | an odd-length input has the checksum of its zero-padded form |
| FletcherChecksum.HalvesTellSums | src/cc/Common/Checksum.cc:75-78 | the halves are never zero and tell both sums modulo 65535 |
| FletcherChecksum.ShortChecksums | src/cc/Common/Checksum.cc:37-118 | the checksums of two bytes and of three |
| Md5.PaddingLength | src/cc/Common/md5.cc:264-265 | between 1 and 64 bytes, to eight bytes short of a block |
| Md5.PaddingIsShortest | src/cc/Common/md5.cc:264-265 | no shorter padding does that |
| Md5.Padded | src/cc/Common/md5.cc:251-274 | the message, a byte 0x80, zeros and the length in bits in the last eight bytes; a whole number of blocks |
| Md5.Padding | src/cc/Common/md5.cc:240-246 | a byte 0x80 and zeros |
| Md5.Output | src/cc/Common/md5.cc:270-273 | the four words in order, low byte first |
| Md5.InitialBytes | src/cc/Common/md5.cc:62-71 | the initial state is the one that section 3.3 of RFC 1321 gives byte by byte |
| Md5.BitLength | src/cc/Common/md5.cc:257-262 | the two counters give the length in bits as a 64-bit little-endian number, over carries and wrap-around |
| Md5.Context.constructor | src/cc/Common/md5.cc:62-71 | counters at zero, the initial state, no message |
| Md5.Context.Count | src/cc/Common/md5.cc:210-214 | the counters hold the length of the message; the carry is detected exactly |
| Md5.Context.FillBuffer | src/cc/Common/md5.cc:216-224 | the buffered bytes and the start of the input are digested as the next block of the message |
| Md5.Context.Blocks | src/cc/Common/md5.cc:226-231 | whole blocks are digested straight from the input |
| Md5.Context.Update | src/cc/Common/md5.cc:199-238 | input of any size brings counters, state and buffer to those of the message extended by it |
| Md5.Context.Finish | src/cc/Common/md5.cc:251-274 | the digest is the compression folded over the blocks of the message padded as in sections 3.1 and 3.2 of RFC 1321 |
| Md5.DigestPieces | src/cc/Common/md5.cc:199-274 | any split of a message into updates gives the digest of the whole |

## Left out

- FrameReceiver.IncomingMessage.ReadHeader: does not model a length field below that of a header, where the source's unsigned subtraction wraps; the stream counts as corrupt and the receiver stops there.
- ClientHandler.ClientKeepaliveHandler.Handle: does not model the timer branch, the lease time and the session state transitions of the handler.
- Sessions.SessionData.HandleKeepalive: does not model the creation of a session for id 0.
- LockMaster.NodeData.Lock: does not model the checks of `OPEN_FLAG_LOCK` and `OPEN_FLAG_WRITE` before the node's mutex is taken, nor the notifications sent.
- LockMaster.NodeData.Open: does not model exclusive creation and temporary nodes, an open whose commit fails after the lock was granted, nor the notifications sent.
- Sockets, epoll and kqueue registration, Berkeley DB transactions and cursors beyond order: foreign code, replaced by parameters and by an ordered map.
- Wake-ups: condition variables and lost or spurious wake-ups of the worker pool and of event waiters; `WorkerProgress` shows what the workers can do, not that they are scheduled to.
- Failing reads and unexpected responses in the receive loop: a read of available bytes is taken to succeed, and what a handed-out frame is dispatched to is not modelled.
- The epoll receive loop of `IOHandlerData.cc`, for the reason given above.
- Keepalives of 2^32 bytes or more, header included: `Keepalive.CreateServerKeepalive` shows that their buffer is overrun, and the protocol model sends only shorter ones.
- Client lease timing (`m_jeopardy_time`) and the client's session state machine: the first does not hold under loss, the second is settled by reading its branches.
- Client calls: two calls for the same handle at once, closing a handle, and a grant that overtakes the reply that its request is pending (only what is stored is modelled, not who waits).
- Session establishment and several sessions over one socket: a session starts with both sides knowing its id.
- Locks: the handle that a failed open leaves in the handle map; nobody can name it.
- Locks: a client that overwrites the attribute `lock.generation`, and nodes that are unlinked and created again; 64-bit generations are unbounded.
- ApplicationQueue: overflow of the 32-bit `outstanding`, and `join`.
- Namespace: names with colons and attribute names with slashes, which the key scheme does not support.
- Namespace: 32-bit and 64-bit attribute values as numbers; values are bytes.
- RequestCache: reuse of 32-bit request ids is allowed, exhaustion is not modelled; the timer heap of the reactor is not modelled.
- Codecs with wrong accounting: `decode_bytes32`, and the open request with attributes.
- MD5 compression and its constants, HMAC, and the zlib-backed crc32: constants or foreign code.
- `HandlerMap`, `ConnectionManager`, `CharArena`, `OpenFileMap`, the DfsBroker, request-handler wrappers, configuration and main programs: easier members that would add little.
