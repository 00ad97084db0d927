# LogCabin client and libtins: models and proofs

This project models the hard parts of RaftMonitor's two libraries and proves what
they are for. Each module is one component.

- `EventLoop`: LogCabin's event loop and its `Event::Loop::Lock`. Threads, condition
  variables, spurious wake-ups and the break timer are steps of a state machine. The
  class `Loop` holds the fields, with one method for each critical section.
- `TcpStream` (with `NatSets`): reassembly of a TCP direction from segments in any order.
- `ExactlyOnce`: exactly-once RPCs, with the client's numbering, an arbitrary network and
  the server's state machine together.
- `LeaderSession`: replacement of the leader session by concurrent callers. A freed
  session's address may be reused.
- `PathNames`: splitting and canonicalizing tree paths.
- `DnsNames`, `DnsMessage`: name compression, section walking, accessors, building queries.
- `InternetChecksum`, `Crc32`, `Ccmp`: checksums and CCMP decryption. The block cipher is
  an arbitrary function from 16 bytes to 16 bytes. `Ccm` states RFC 3610, and `CcmpFrame` the
  additional data and the nonce of IEEE 802.11, independently of the code.
- `IpReassembly`: IPv4 fragments. `ClientSession`: request and reply bookkeeping with the
  ping timer. `ConfigFile`: the configuration parser and printer.
  `HandshakeCapturer`: four-way handshakes in a frame trace.

State that the source changes in place is a class whose methods are proved equal to a
specification function; loops are methods with invariants. Main results are lemmas about
those functions, over all inputs or all runs from the initial state.

What is not in the code but in its surroundings is a parameter or a step: the thread that
a condition variable wakes, the id an OPEN_SESSION call returns, times, the results of
`socket` and `connect`, the address of a new session, and the order in which a map is iterated.

## Where the code and its promises differ

- `add_sequence_numbers` reduces by 2^32 - 1 instead of 2^32. `AddSeqIsSerial` gives the
  exact condition under which this does not matter to one addition. Over whole traces it
  matters in one case: `generic_process` erases more bytes than a segment has if and only
  if the segment wraps and ends one byte before the delivery point (`SlicesTooMuchIff`,
  `FollowSegments`, `ShortCopyIsOneShort`).
- `TCPStream::update` is documented to answer whether a payload changed. It answers true without
  a change exactly for a packet that ends at the delivery point (`Stream.Update`).
- `compose_name` follows the octets 0x40 to 0xbf as pointers (`StandardIff`,
  `ReservedOctetIsFollowed`).
- A DNS message that is only a header is accepted with any counts (`BareHeaderCounts`), and
  the question count wraps (`QueriesRoundTrip`).
- `ClientSession::cancel` on an RPC whose reply has come decrements `numActiveRPCs` twice.
  The counter can then wrap, and a later RPC has no timer (`CancelAfterReplyLosesTheTimer`,
  `CancelKeepsCountIff`). A reply to an RPC that was canceled under a waiter leaves its entry
  behind (`LeftBehindIff`, `StrayIsForGood`).
- The comment on `Response::hasWaiter` says that a Response with a waiter may not be deleted.
  `ClientSession::update` deletes it without that test (`EntriesKeptIff`, `WaitersHaveEntriesIff`,
  `WaitedIsDeleted`).
- `ccmp_decrypt_unicast` authenticates QoS frames as if their traffic identifier were 0
  (`EncodedAadIsStandardIff`, `NonceIsStandardIff`).
- An IPv4 stream is not erased after success (`ReusedKeyGetsOldBytes`,
  `ReusedKeyIsRightIff`), and both directions share a key (`SameKeyIff`).
- `IP::is_fragmented` takes a packet with only the reserved bit set for a fragment
  (`NotFragmentedIff`).
- A configuration value set by the program may not survive printing (`PrintThenRead`).
- `runForever` called by a thread that holds a Lock waits for itself
  (`DeadlockOnlyByHoldingALock`).

## Model

| member | source | states |
|---|---|---|
| `EventLoop.InvStep` | logcabin/Event/Loop.cc:48-162 | every step of every thread (entering and leaving a Lock constructor, a Lock destructor, the top of the loop, polling, dispatching, exit, spurious wake-ups included) keeps the counters exact, ownership exclusive, threads distinct and wake-ups pending |
| `EventLoop.ReachableInv` | logcabin/Event/Loop.cc:48-162 | that invariant holds in every reachable state, for any number of threads and nested Locks |
| `EventLoop.LockGuarantee` | logcabin/Event/Loop.h:40-49 | while a Lock is held, all active Locks belong to one thread, and either that thread is the event loop thread inside its own handler or the loop is stopped; numActiveLocks and numLocks count the active Locks and those plus the blocked constructors |
| `EventLoop.WakeupsAreNotLost` | logcabin/Event/Loop.cc:48-81 | whenever nothing excludes the blocked constructors one of them has been notified; a parked loop with no Locks left has been notified; a polling loop with a blocked constructor has its break timer pending |
| `EventLoop.LockIsGrantedIff` | logcabin/Event/Loop.cc:48-67 | a constructor returns at once if and only if all active Locks and the running handler, if any, are its own thread's; otherwise it sleeps |
| `EventLoop.LoopGoesOn` | logcabin/Event/Loop.cc:115-155 | next time round the loop waits if and only if there is a Lock or a blocked constructor, and else returns or polls by the exit flag; polling, it can dispatch |
| `EventLoop.ExitStep` | logcabin/Event/Loop.cc:115-162 | a single step keeps shouldExit set and dispatches nothing until runForever returns |
| `EventLoop.ExitStopsDispatch` | logcabin/Event/Loop.cc:115-162 | over whole runs: once shouldExit is set no handler is dispatched before runForever returns |
| `EventLoop.ExitTakesEffect` | logcabin/Event/Loop.cc:157-162 | from the assignment in exit on, whatever other threads do before and after its Lock is released, nothing is dispatched until runForever returns |
| `EventLoop.ExitReturns` | logcabin/Event/Loop.cc:119-132 | with shouldExit set and no Lock left, the next time round runForever returns and clears the flag |
| `EventLoop.ExitCanReturn` | logcabin/Event/Loop.h:76-92 | once the flag is set, some run makes runForever return, unless the loop thread waits for itself |
| `EventLoop.WorkStep` | logcabin/Event/Loop.cc:48-162 | once the flag is set, each step of a notified waiter, of a Lock holder or of the handler lessens a measure of the work left, and any other step adds at most 3 to it |
| `EventLoop.ExitReturnsSoon` | logcabin/Event/Loop.h:83-85 | once the flag is set, in every order of steps: as long as runForever has not returned such a step can be taken, and at most 3 numLocks + |woken| + 2 of them are taken, and 3 more for each new Lock, spurious wake-up or further exit |
| `EventLoop.ReleaseOne` | logcabin/Event/Loop.cc:69-81 | an active Lock can be destroyed, and that lowers numLocks by one and keeps the invariant |
| `EventLoop.AcquireOne` | logcabin/Event/Loop.cc:48-67 | when nothing excludes it a notified constructor can complete |
| `EventLoop.YieldLoop` | logcabin/Event/Loop.cc:119-153 | a running loop reaches the point where it lets blocked constructors proceed |
| `EventLoop.CanBecomeQuiet` | logcabin/Event/Loop.cc:48-155 | from every state in which the loop thread does not wait for itself some run completes and releases all Locks and lets the loop go on |
| `EventLoop.SelfDeadlockIsPermanent` | logcabin/Event/Loop.cc:119-132 | once a thread that called runForever while holding a Lock waits for itself, it does so after every further run |
| `EventLoop.DeadlockedIffSelfWaiting` | logcabin/Event/Loop.cc:48-155 | all Locks can still be taken and released if and only if the loop thread does not wait for itself |
| `EventLoop.SelfDeadlockStep` | logcabin/Event/Loop.cc:115-132 | one step leads into that state if and only if it is a call of runForever by a thread that holds a Lock |
| `EventLoop.SelfDeadlockIff` | logcabin/Event/Loop.cc:115-132 | a run ends there if and only if such a call was made in it |
| `EventLoop.DeadlockIsReachable` | logcabin/Event/Loop.cc:115-132 | two steps from the start are enough |
| `EventLoop.DeadlockOnlyByHoldingALock` | logcabin/Event/Loop.cc:48-155 | after any run from the start, all Locks can still be taken and released if and only if no thread called runForever while it held a Lock |
| `EventLoop.Loop.constructor` | logcabin/Event/Loop.cc:85-103 | a new loop has no Locks, no owner and no pending break |
| `EventLoop.Loop.BeginLock` | logcabin/Event/Loop.cc:48-67 | the constructor up to success or its first wait is the abstract step |
| `EventLoop.Loop.ResumeLock` | logcabin/Event/Loop.cc:52-66 | a woken constructor that re-tests its condition is the abstract step |
| `EventLoop.Loop.Unlock` | logcabin/Event/Loop.cc:69-81 | the destructor is the abstract step, notifying another constructor or the loop |
| `EventLoop.Loop.DrainLocks` | logcabin/Event/Loop.cc:119-132 | the test of the inner loop at the top of runForever: it waits if and only if a Lock is left, and otherwise returns if and only if shouldExit is set |
| `EventLoop.Loop.Start` | logcabin/Event/Loop.cc:115-132 | entering runForever is the abstract step |
| `EventLoop.Loop.Resume` | logcabin/Event/Loop.cc:119-132 | a notified loop that re-tests numLocks is the abstract step |
| `EventLoop.Loop.Dispatch` | logcabin/Event/Loop.cc:134-153 | taking an event, which may be the break timer, is the abstract step |
| `EventLoop.Loop.HandlerDone` | logcabin/Event/Loop.cc:115-155 | returning from a handler to the top of the loop is the abstract step |
| `EventLoop.Loop.SetExit` | logcabin/Event/Loop.cc:157-162 | setting shouldExit under a Lock is the abstract step |
| `TcpStream.AddSeqIsSerial` | libtins/src/tcp_stream.cpp:36-44 | add_sequence_numbers is addition modulo 2^32 if and only if the sum stays below 2^32 - 1; its modulus is one too small |
| `TcpStream.SubSeqIsSerial` | libtins/src/tcp_stream.cpp:47-54 | subtract_sequence_numbers is subtraction modulo 2^32 on all inputs, and adding the difference back gives the first number |
| `TcpStream.CompareSeqIsSerial` | libtins/src/tcp_stream.cpp:57-66 | compare_seq_numbers decides the serial number order of RFC 1982, except that its greater answer is wrong if and only if the numbers are 2^31 apart |
| `TcpStream.SlicesTooMuchIff` | libtins/src/tcp_stream.cpp:166-178 | the slice taken from a chunk is longer than the chunk if and only if the addition wraps and the chunk ends one byte short of the expected one |
| `TcpStream.SlicesTooMuchExample` | libtins/src/tcp_stream.cpp:166-178 | two bytes at 2^32 - 3 when byte 0 is expected: three bytes are erased of two |
| `TcpStream.BufferedSliceFits` | libtins/src/tcp_stream.cpp:185-195 | the slice taken from a buffered fragment is never longer than the fragment |
| `TcpStream.ComparisonIsRightIff` | libtins/src/tcp_stream.cpp:57-66 | numbers of positions less than 2^32 apart compare as the positions if and only if they are within half the number space |
| `TcpStream.EndAt` | libtins/src/tcp_stream.cpp:36-44 | the computed end of a fragment is its end, or the position after it if the addition wraps |
| `TcpStream.EraseIterator` | libtins/src/tcp_stream.cpp:68-76 | the erased key is gone, the iterator goes to the next key round the circle of numbers and ends only on an empty map |
| `TcpStream.InsertKeeps` | libtins/src/tcp_stream.cpp:141-156 | inserting a fragment, the longer one winning, keeps the buffer exactly the received bytes not yet delivered |
| `TcpStream.StaleKeeps` | libtins/src/tcp_stream.cpp:158-170 | a segment that ends before the delivery point changes nothing |
| `TcpStream.ClipKeeps` | libtins/src/tcp_stream.cpp:162-178 | a segment that overlaps the delivery point is cut there and inserted without losing or inventing a byte |
| `TcpStream.AppendKeeps` | libtins/src/tcp_stream.cpp:198-218 | delivering the fragment at the delivery point keeps the invariant |
| `TcpStream.ResliceKeeps` | libtins/src/tcp_stream.cpp:180-198 | cutting a buffered fragment at the delivery point keeps the invariant |
| `TcpStream.DropKeeps` | libtins/src/tcp_stream.cpp:180-198 | dropping a buffered fragment that was wholly delivered keeps the invariant |
| `TcpStream.Clip` | libtins/src/tcp_stream.cpp:170-178 | a segment that starts before the delivery point is sliced there, and whether the slice stays inside it |
| `TcpStream.PassFragment` | libtins/src/tcp_stream.cpp:180-198 | the branch for a fragment before the delivery point keeps the invariant, erases only bytes there are and makes the loop measure smaller on every input |
| `TcpStream.DeliverFragment` | libtins/src/tcp_stream.cpp:198-218 | the branch that delivers appends the fragment and keeps the invariant |
| `TcpStream.Drain` | libtins/src/tcp_stream.cpp:180-218 | the drain loop ends on every input; on a consistent flow, its numbers wrapping or not, it erases only bytes there are and leaves nothing deliverable in the buffer |
| `TcpStream.ProcessSegment` | libtins/src/tcp_stream.cpp:158-224 | a segment within half the number space erases beyond its end if and only if its end wraps and lies one byte before the delivery point; otherwise a correct flow stays correct, this segment included, and the answer is true if and only if the delivery point is in the segment or at its end |
| `TcpStream.DeliversMoreIff` | libtins/include/tins/tcp_stream.h:170-179 | a segment lets more be delivered if and only if it has the byte at the delivery point |
| `TcpStream.SlicesTooMuchIsOneShort` | libtins/src/tcp_stream.cpp:166-178 | by stream position: the slice is too long if and only if the chunk wraps and ends one byte before what was delivered |
| `TcpStream.FlowDelivers` | libtins/src/tcp_stream.cpp:158-224 | a correct flow has delivered exactly the longest prefix of the sent bytes that the received segments cover |
| `TcpStream.FollowSegments` | libtins/src/tcp_stream.cpp:158-224 | streams of any length and first number, segments in any order, overlap and repetition, each within half the number space of the delivery point: every erasure is inside its chunk if and only if no chunk wraps and ends one byte before the delivery point when it arrives, and then the payload is the longest covered prefix |
| `TcpStream.ShortStreamIsFollowable` | libtins/src/tcp_stream.cpp:158-224 | any segments of a stream shorter than 2^31 bytes meet that window |
| `TcpStream.UnwrappedIsNeverShort` | libtins/src/tcp_stream.cpp:36-44 | a stream whose numbers stay below 2^32 - 1 has no such chunk |
| `TcpStream.ShortCopyIsOneShort` | libtins/src/tcp_stream.cpp:166-178 | three bytes at 2^32 - 3, then a copy of the first two: the second erases more than it has |
| `TcpStream.Stream.constructor` | libtins/src/tcp_stream.cpp:98-104 | a stream starts with no payload and no segments of either side |
| `TcpStream.Stream.Update` | libtins/src/tcp_stream.cpp:226-242 | each packet adds its chunk to the side that sent it; until a packet wraps and ends one byte before what its side has delivered, both payloads are the longest covered prefixes; the answer is true if and only if the delivery point is in the chunk or at its end, so true without a change exactly if the chunk ends there; the SYN and FIN flags are tracked |
| `TcpStream.Stream.PayloadsArePrefixes` | libtins/src/tcp_stream.cpp:226-242 | in a valid stream that never erased beyond a chunk both payloads are the longest covered prefixes of what the two sides sent |
| `ExactlyOnce.StateMachine.constructor` | logcabin/Server/StateMachine.h:190-213 | a new state machine has no sessions and nothing applied |
| `ExactlyOnce.StateMachine.ExpireResponsesOf` | logcabin/Server/StateMachine.cc:243-256 | the erasing loop removes exactly the responses below the new first outstanding number |
| `ExactlyOnce.StateMachine.DropStaleSessions` | logcabin/Server/StateMachine.cc:258-277 | the erasing loop removes exactly the sessions that timed out |
| `ExactlyOnce.StateMachine.TouchSession` | logcabin/Server/StateMachine.cc:166-172 | if the entry carries a clock reading, its session is refreshed and the stale ones are dropped, and else nothing |
| `ExactlyOnce.StateMachine.Apply` | logcabin/Server/StateMachine.cc:127-173 | a committed tree command, with or without a clock reading, is the abstract step: at most one application, remembered under its number |
| `ExactlyOnce.StateMachine.ApplyOpenSession` | logcabin/Server/StateMachine.cc:159-173 | a committed open-session command, with or without a clock reading, is the abstract step |
| `ExactlyOnce.StateMachine.GetResponse` | logcabin/Server/StateMachine.cc:83-106 | found if and only if the session and the response exist, and then that response |
| `ExactlyOnce.ExactlyOnceRPCHelper.constructor` | logcabin/Client/ClientImpl.h:99-104 | no client id and no outstanding numbers |
| `ExactlyOnce.ExactlyOnceRPCHelper.GetRPCInfo` | logcabin/Client/ClientImpl.cc:76-107 | the next number, the least outstanding one, and the client id, opened on first use |
| `ExactlyOnce.ExactlyOnceRPCHelper.DoneWithRPC` | logcabin/Client/ClientImpl.cc:109-115 | the number is no longer outstanding, and nothing else changes |
| `ExactlyOnce.InvCommit` | logcabin/Server/StateMachine.cc:127-173 | committing any copy of any request, at any time and in any order, keeps the invariant of clients, requests in transit and server |
| `ExactlyOnce.InvStep` | logcabin/Server/StateMachine.cc:127-277 | every step of every client, of the network and of the server keeps the invariant |
| `ExactlyOnce.AwaitedStep` | logcabin/Client/ClientImpl.cc:109-115 | every step keeps this: a call that has not returned is in its client's set of outstanding numbers |
| `ExactlyOnce.ReachableInv` | logcabin/Server/StateMachine.cc:127-277 | both invariants hold in every reachable state |
| `ExactlyOnce.NumbersAreFresh` | logcabin/Client/ClientImpl.cc:76-107 | the numbers of one client increase strictly and its first outstanding number never falls |
| `ExactlyOnce.FirstOutstandingIsSafe` | logcabin/Client/ClientImpl.cc:76-107 | no request ever made has a first outstanding number above the number of a call that has not returned, or above its own |
| `ExactlyOnce.ReturnedCallsApplyExactlyOnce` | logcabin/Client/ClientImpl.cc:391-412 | whatever is lost, repeated or reordered, a call that returned was applied exactly once, with the command it sent, and its result is that of this application |
| `ExactlyOnce.WaitingCallIsNeverDiscarded` | logcabin/Server/StateMachine.cc:243-256 | the response computed for a call that has not returned is never discarded while its session lives |
| `ExactlyOnce.AwaitedCallReturns` | logcabin/Server/StateMachine.cc:127-173 | a call that has not returned, and whose session lives, returns once its request is committed, answered and delivered |
| `ExactlyOnce.AppliedIff` | logcabin/Server/StateMachine.cc:139-157 | a committed copy of a call that has not returned is applied if and only if its session lives and no copy was applied before |
| `ExactlyOnce.DiscardedIff` | logcabin/Server/StateMachine.cc:243-256 | a committed request discards a response of its session if and only if the number is below its first outstanding number |
| `ExactlyOnce.FirstOutstandingIsLeast` | logcabin/Client/ClientImpl.cc:76-115 | over whole runs: the first outstanding number of a new request is the least number whose caller has not said it is done |
| `ExactlyOnce.SessionLivesIff` | logcabin/Server/StateMachine.cc:166-172 | over whole runs: a session lives if and only if no clock reading comes more than the timeout after the last one of its own entries |
| `ExactlyOnce.OpenedSessionLives` | logcabin/Server/StateMachine.cc:159-173 | a session just opened lives, with the clock reading of its entry and no responses |
| `ExactlyOnce.OutcomesArePermanent` | logcabin/Server/StateMachine.cc:127-173 | no later step undoes an application or changes what a call returned |
| `LeaderSession.InvStep` | logcabin/Client/LeaderRPC.cc:46-153 | every step of any number of callers keeps the invariant on session generations, addresses reused after a session is freed included |
| `LeaderSession.ReachableInv` | logcabin/Client/LeaderRPC.cc:46-153 | the invariant holds in every reachable state |
| `LeaderSession.EachSessionReplacedOnce` | logcabin/Client/LeaderRPC.cc:132-153 | in every run, with callers starting, failing and ending attempts in any order, a session is replaced by one reconnect of a caller that held it or by none, and it is replaced if and only if some caller failed on it |
| `LeaderSession.FailureReplacesOnlyTheFailedSession` | logcabin/Client/LeaderRPC.cc:132-153 | a failure on an old session changes nothing, a failure on the current one replaces exactly it, and after either the caller has something newer to try |
| `LeaderSession.StaleCallersChangeNothing` | logcabin/Client/LeaderRPC.cc:132-153 | while no caller starts anew, callers that hold older sessions cause no reconnect |
| `LeaderSession.ConcurrentFailuresReconnectOnce` | logcabin/Client/LeaderRPC.cc:55-85 | attempts under way that end in any order cause one reconnect if some failed on the current session, and none otherwise |
| `LeaderSession.VerdictIs` | logcabin/Client/LeaderRPC.cc:71-119 | which outcomes return, which are retried and which end the process |
| `LeaderSession.TargetsAreHints` | logcabin/Client/LeaderRPC.cc:88-107 | over whole runs: each replaced session was replaced by one opened at the hint of the first failure on it, or anywhere if that had none |
| `LeaderSession.LeaderRPC.constructor` | logcabin/Client/LeaderRPC.cc:27-36 | the first session is generation zero and nobody has cached it |
| `LeaderSession.LeaderRPC.CacheSession` | logcabin/Client/LeaderRPC.cc:56-61 | saving a reference to the leader session is the abstract step |
| `LeaderSession.LeaderRPC.Connect` | logcabin/Client/LeaderRPC.cc:132-153 | comparing with the cached session and reconnecting is the abstract step |
| `LeaderSession.LeaderRPC.Decode` | logcabin/Client/LeaderRPC.cc:72-120 | the switches on the status and on the error code are the abstract step |
| `PathNames.SplitInto` | logcabin/Client/ClientImpl.cc:249-265 | the scanning loop appends exactly the components of the path |
| `PathNames.SplitGivesComponents` | logcabin/Client/ClientImpl.cc:249-265 | components are never empty and hold no slash |
| `PathNames.SplitJoin` | logcabin/Client/ClientImpl.cc:249-265 | joining two paths with a slash joins their components |
| `PathNames.IronOut` | logcabin/Client/ClientImpl.cc:291-315 | the loop that erases in place equals a stack walk over the components |
| `PathNames.WalkFails` | logcabin/Client/ClientImpl.cc:291-315 | the walk fails if and only if some prefix has more ".." than names |
| `PathNames.WalkGivesNames` | logcabin/Client/ClientImpl.cc:291-315 | what remains holds no "." and no ".." |
| `PathNames.WalkRewrites` | logcabin/Client/ClientImpl.cc:291-315 | anywhere in a path a name followed by ".." may be taken out, and so may "." |
| `PathNames.CanonicalizePath` | logcabin/Client/ClientImpl.cc:269-323 | the whole function, errors included, equals its specification |
| `PathNames.CanonicalIsNormal` | logcabin/Client/ClientImpl.cc:269-323 | every result is a normal form |
| `PathNames.NormalFormIsFixed` | logcabin/Client/ClientImpl.cc:269-323 | a path is returned unchanged if and only if it is a normal form |
| `PathNames.CanonicalizeIsIdempotent` | logcabin/Client/ClientImpl.cc:269-323 | canonicalizing twice is canonicalizing once, whatever the working directories |
| `PathNames.RelativeResolvesAsJoin` | logcabin/Client/ClientImpl.cc:276-290 | resolving a relative path against an absolute directory is resolving the two joined |
| `PathNames.UpCancelsName` | logcabin/Client/ClientImpl.cc:269-323 | in an absolute path a/c/../b resolves as a/b, for a name c |
| `PathNames.DotIsNothing` | logcabin/Client/ClientImpl.cc:269-323 | and a/./b resolves as a/b |
| `PathNames.EmptyPathIsRoot` | logcabin/Client/ClientImpl.cc:269-323 | the empty path is the root, whatever the working directory |
| `PathNames.CanonicalizeFails` | logcabin/Client/ClientImpl.cc:269-323 | exactly when each of the two errors is reported |
| `DnsNames.TargetIsLowFourteen` | libtins/src/dns.cpp:329-331 | a pointer leads to the low fourteen bits of its two bytes |
| `DnsNames.Compose` | libtins/src/dns.cpp:317-359 | ends on every buffer, under the measure of room left and position, and never yields more than 255 characters |
| `DnsNames.NameEnd` | libtins/src/dns.cpp:80-99 | skipping a name moves forward |
| `DnsNames.NameEndIs` | libtins/src/dns.cpp:80-99 | a name is skipped to one byte past its zero byte or two past the start of its pointer |
| `DnsNames.FindNameEnd` | libtins/src/dns.cpp:80-99 | the skipping loop computes the end of the name |
| `DnsNames.AppendLabel` | libtins/src/dns.cpp:341-354 | a label is appended after a dot unless it is the first, within the buffer |
| `DnsNames.FollowPointer` | libtins/src/dns.cpp:325-338 | the branch for an offset goes on at an earlier position, or fails exactly where the specification does |
| `DnsNames.CopyLabel` | libtins/src/dns.cpp:340-354 | the branch for a label appends it, or fails exactly where the specification does |
| `DnsNames.ComposeName` | libtins/src/dns.cpp:317-359 | the loop over a 256-byte buffer yields the composed name, its terminator, and the same end as find_dname_end; it fails exactly where the specification does |
| `DnsNames.ComposeFindsName` | libtins/src/dns.cpp:317-359 | what is composed is a name by the rules of section 4.1.4 of RFC 1035, reserved octets read as pointers |
| `DnsNames.NameIsComposed` | libtins/src/dns.cpp:317-359 | every such name is composed, or refused exactly when it is longer than 255 characters |
| `DnsNames.ComposeIff` | libtins/src/dns.cpp:317-359 | composing succeeds with a text if and only if that text is the name there and has at most 255 characters |
| `DnsNames.NameIsUnique` | libtins/src/dns.cpp:317-359 | a position holds at most one name |
| `DnsNames.StandardIff` | libtins/src/dns.cpp:323-338 | an accepted name is one RFC 1035 assigns if and only if no reserved octet 0x40 to 0xbf is met |
| `DnsNames.StandardIsAccepted` | libtins/src/dns.cpp:317-359 | every name RFC 1035 assigns is a name in the code's reading |
| `DnsNames.StandardIsComposed` | libtins/src/dns.cpp:317-359 | every name RFC 1035 assigns is composed, or refused if and only if it is longer than 255 characters |
| `DnsNames.ReservedOctetIsFollowed` | libtins/src/dns.cpp:323-338 | a message whose reserved octet is followed as a pointer |
| `DnsNames.ComposeEndsInData` | libtins/src/dns.cpp:317-359 | a name that is composed ends inside the data |
| `DnsNames.LengthByteIsLowEight` | libtins/src/dns.cpp:304-309 | a label length keeps only its low eight bits |
| `DnsNames.EncodeLabels` | libtins/src/dns.cpp:303-309 | the loop over the dots yields the encoded labels |
| `DnsNames.EncodeDomainName` | libtins/src/dns.cpp:298-312 | the whole encoding, the empty name included |
| `DnsNames.EncodedIsName` | libtins/src/dns.cpp:298-312 | encoded labels of 1 to 63 bytes are a name by RFC 1035 and are skipped as one |
| `DnsNames.EncodeRoundTrip` | libtins/src/dns.cpp:298-359 | an encoded name, wherever it stands in the data, is composed back to itself and skipped exactly |
| `DnsMessage.FindSectionEnd` | libtins/src/dns.cpp:101-117 | the loop finds the position after the records or fails |
| `DnsMessage.ParseMessage` | libtins/src/dns.cpp:53-78 | the constructor accepts or refuses a buffer and finds the section indices as specified |
| `DnsMessage.ParsesIff` | libtins/src/dns.cpp:53-117 | a buffer is accepted as a message if and only if its octets are that header and, unless nothing follows it, the questions, answers and authority records that it counts stand one after the other up to the three indices |
| `DnsMessage.ReadName` | libtins/src/dns.cpp:317-359 | a name in the caller's buffer, read as a C string |
| `DnsMessage.ReadQueries` | libtins/src/dns.cpp:522-547 | queries() returns the decoded queries of the section or fails |
| `DnsMessage.ConvertRecord` | libtins/src/dns.cpp:385-471 | one record: its name, fields, preference skip, bounds test and data |
| `DnsMessage.ConvertData` | libtins/src/dns.cpp:421-459 | the switch on the type, which reads an address, a name or text |
| `DnsMessage.RecordAtIff` | libtins/src/dns.cpp:385-471 | a record that was skipped is decoded if and only if its name composes, an address has its length, and a name in its data composes; the result then has the name, type, class, ttl and data that stand there |
| `DnsMessage.RecordsSucceedIff` | libtins/src/dns.cpp:385-471 | convert_records succeeds on n skipped records if and only if each of them fits, and returns all n in order as they stand |
| `DnsMessage.ConvertRecords` | libtins/src/dns.cpp:385-471 | convert_records returns the decoded records of a section or fails |
| `DnsMessage.QueriesCount` | libtins/src/dns.cpp:522-547 | if n queries were skipped, decoding up to there yields n queries or fails |
| `DnsMessage.QueriesSucceedIff` | libtins/src/dns.cpp:522-547 | for every accepted buffer with record data, queries succeeds if and only if every name composes, and returns the name, type and class that stand there |
| `DnsMessage.RecordAtEnd` | libtins/src/dns.cpp:101-117 | a record ends at the same place whether it is decoded or skipped |
| `DnsMessage.RecordsCount` | libtins/src/dns.cpp:385-471 | if n records were skipped, decoding up to there yields n records or fails |
| `DnsMessage.ParsedInOrder` | libtins/src/dns.cpp:53-78 | the indices of an accepted message are ordered and inside its data |
| `DnsMessage.AccessorsReturnTheCounts` | libtins/src/dns.cpp:522-571 | for every accepted buffer with record data, queries, answers and authority each return exactly the header count of entries or fail |
| `DnsMessage.AccessorsSucceedIff` | libtins/src/dns.cpp:549-571 | for every accepted buffer with record data, answers and authority succeed if and only if every record of their section fits, and return those records |
| `DnsMessage.BareHeaderCounts` | libtins/src/dns.cpp:64-77 | a bare header is accepted whatever its counts, and they are met if and only if they are zero |
| `DnsMessage.Dns.constructor` | libtins/src/dns.cpp:47-51 | an empty message |
| `DnsMessage.Dns.Add` | libtins/src/dns.cpp:172-194 | adding a query inserts its bytes before the answers, shifts all indices and counts it in 16 bits |
| `DnsMessage.HeaderRoundTrip` | libtins/src/dns.cpp:361-368 | a serialized header is read back |
| `DnsMessage.ReadQuery` | libtins/src/dns.cpp:172-182 | an encoded query is read back wherever it stands |
| `DnsMessage.QueriesRoundTrip` | libtins/src/dns.cpp:172-194 | any list of well-formed queries added to an empty message, serialized and parsed comes back in order, cut to its length modulo 65536; queries() returns the whole list if and only if it has fewer than 65536 queries |
| `InternetChecksum.DoChecksum` | libtins/src/utils.cpp:219-238 | the loop returns the sum of big-endian words, an odd byte padded, modulo 2^32 |
| `InternetChecksum.AccumulatorCapacity` | libtins/src/utils.cpp:219-238 | the 32-bit accumulator holds the sum of every buffer of a length if and only if that is at most 131074 bytes |
| `InternetChecksum.Fold` | libtins/src/ip.cpp:409-410 | the fold loop ends with the 16-bit folded sum |
| `InternetChecksum.FoldedSumIsOnesSum` | libtins/src/utils.cpp:219-238 | for every length, folding at the end equals adding in one's complement word by word, an odd last byte padded, as section 1 of RFC 1071 defines it |
| `InternetChecksum.SumStore` | libtins/src/utils.cpp:219-238 | replacing an aligned word changes the sum by the difference, at odd lengths too |
| `InternetChecksum.ComplementFoldsToOnes` | libtins/src/ip.cpp:408-412 | adding the complement of the folded sum makes it fold to 0xffff |
| `InternetChecksum.WriteChecksum` | libtins/src/ip.cpp:407-413 | after the checksum is stored the whole range folds to 0xffff and no other byte changed |
| `InternetChecksum.WriteIpChecksum` | libtins/src/ip.cpp:407-413 | the same for an IP header with its padded options; without a parent the field stays zero |
| `InternetChecksum.WriteIcmpChecksum` | libtins/src/icmp.cpp:213-222 | the same for an ICMP message of any length up to 65535, odd ones included |
| `InternetChecksum.OneWordErrorIsDetected` | libtins/src/utils.cpp:219-238 | a checking packet still checks after one aligned word changed if and only if the word went from 0 to 0xffff, or from 0xffff to 0 in a packet whose sum is more than that |
| `Crc32.Crc` | libtins/src/utils.cpp:269-285 | the sixteen-entry nibble table computes the bitwise CRC-32 of the data |
| `Crc32.CheckValue` | libtins/src/utils.cpp:269-285 | the nine digits give 0xCBF43926 |
| `Crc32.TableEntry` | libtins/src/utils.cpp:271-276 | each table entry is four bit steps of the complemented index |
| `Crc32.BitStepLinear` | libtins/src/utils.cpp:278-281 | shifting a bit out of the reference register is linear |
| `Crc32.FourBitsLinear` | libtins/src/utils.cpp:278-281 | four bit steps shift out the low nibble and add what it turns into |
| `Crc32.TableStep` | libtins/src/utils.cpp:278-281 | a table step on a complemented register is the reference step |
| `Crc32.ByteOfTable` | libtins/src/utils.cpp:278-281 | two table steps are one byte of the reference |
| `Ccmp.XorRange` | libtins/src/crypto.cpp:125-130 | the exclusive or of two ranges, also in place when the destination does not run ahead |
| `Ccmp.FillAad` | libtins/src/crypto.cpp:281-297 | the array filled is the length-prefixed, zero-padded encoding of the masked header fields |
| `Ccmp.AadLengthOk` | libtins/src/crypto.cpp:282-285 | the length octet is the length of the additional data |
| `Ccmp.StartMac` | libtins/src/crypto.cpp:304-319 | the MAC of the first block and the additional data, and the first counter block |
| `Ccmp.DecryptPayload` | libtins/src/crypto.cpp:325-332 | a round decrypts its bytes in place, eight positions before where it reads them |
| `Ccmp.Round` | libtins/src/crypto.cpp:325-336 | a round of the loop decrypts one block and adds it to the MAC |
| `Ccmp.SizeOfRound` | libtins/src/crypto.cpp:325-327 | the size of a round: 16, or what is left for the last |
| `Ccmp.Rounds` | libtins/src/crypto.cpp:324-337 | the loop, for any plaintext that is right round by round |
| `Ccmp.DecryptBlocks` | libtins/src/crypto.cpp:324-337 | the loop leaves the counter-mode plaintext in the buffer and the CBC-MAC of all of it |
| `Ccmp.UnmaskTag` | libtins/src/crypto.cpp:318-323 | the tag at the end of the payload, unmasked with the first key stream block |
| `Ccmp.Decrypt` | libtins/src/crypto.cpp:269-341 | the whole function is CCM decryption: the plaintext if and only if the tag matches |
| `Ccmp.CtrTwice` | libtins/src/crypto.cpp:324-332 | counter mode undoes itself |
| `Ccmp.OpensIffSealed` | libtins/src/crypto.cpp:269-341 | for any block function, a payload opens as a message if and only if it is the sealed form of that message |
| `Ccm.BlocksAreStandard` | libtins/src/crypto.cpp:299-333 | the first block and the counter blocks are B_0 and A_i of RFC 3610, with the flags computed from M = 8 and L = 2 and the number in two octets |
| `Ccm.TwoDigitsHold` | libtins/src/crypto.cpp:299-333 | the digits that two octets hold determine every number below 65536, most significant first |
| `Ccm.MacStartIsCbcMac` | libtins/src/crypto.cpp:310-317 | the start of the MAC is the CBC-MAC, from zero, of B_0 and both halves of the encoded additional data |
| `Ccm.TagIsStandard` | libtins/src/crypto.cpp:310-337 | the tag is the first eight octets of the CBC-MAC of B_0, of the additional data after its length in blocks, and of the message in blocks |
| `Ccm.CtrIsStandard` | libtins/src/crypto.cpp:322-337 | decryption adds the key stream S_1, S_2, ... block after block |
| `Ccm.SealIsStandard` | libtins/src/crypto.cpp:269-341 | what opens is sealed as section 2 of RFC 3610 prescribes |
| `Ccm.OpensIffStandard` | libtins/src/crypto.cpp:269-341 | a payload opens as a message if and only if it is that message sealed by RFC 3610 |
| `CcmpFrame.AadIsStandardIff` | libtins/src/crypto.cpp:281-297 | the additional data is that of section 11.4.3.3.3 of IEEE 802.11-2012, stated from the frame's octets, if and only if the frame is not a QoS frame or is plain QoS data with traffic identifier 0 and the order bit clear |
| `CcmpFrame.EncodedAadIsStandardIff` | libtins/src/crypto.cpp:281-297 | the same of the encoded form that is authenticated |
| `CcmpFrame.EncodingIsInjective` | libtins/src/crypto.cpp:281-285 | the encoding with its length in front loses nothing |
| `CcmpFrame.NonceIsStandardIff` | libtins/src/crypto.cpp:272-279 | the nonce is that of section 11.4.3.3.4 of IEEE 802.11-2012 if and only if the frame is not a QoS frame or its traffic identifier is 0 |
| `CcmpFrame.AgreedFramesOpen` | libtins/src/crypto.cpp:269-341 | a frame that meets the condition and is sealed as the standard says opens as its message |
| `CcmpFrame.AgreedFramesOpenIff` | libtins/src/crypto.cpp:269-341 | an agreed frame opens as a message if and only if it is what RFC 3610 seals for the data and the nonce of the standard |
| `IpReassembly.FindPosition` | libtins/src/ip_reassembler.cpp:45-49 | the list walk finds the first fragment that does not start earlier |
| `IpReassembly.AddFragment` | libtins/src/ip_reassembler.cpp:44-61 | adding a fragment, duplicates by offset ignored, is the specification |
| `IpReassembly.AllocatePdu` | libtins/src/ip_reassembler.cpp:67-83 | the concatenation if each fragment starts where the one before ends in 16 bits, else nothing |
| `IpReassembly.RebuiltIff` | libtins/src/ip_reassembler.cpp:67-83 | a payload is rebuilt if and only if each fragment starts where the one before ends, and is then their concatenation |
| `IpReassembly.AddPiece` | libtins/src/ip_reassembler.cpp:44-61 | a fragment of a cut packet joins those held exactly once |
| `IpReassembly.CompleteIffAll` | libtins/src/ip_reassembler.cpp:63-65 | the byte count says complete if and only if no fragment is missing |
| `IpReassembly.ReassemblesInAnyOrder` | libtins/src/ip_reassembler.cpp:44-83 | for every order and repetition: complete if and only if every fragment came, and then the original payload and protocol |
| `IpReassembly.SameKeyIff` | libtins/src/ip_reassembler.cpp:126-138 | two packets share a stream if and only if identification and unordered address pair agree |
| `IpReassembly.Reassembler.constructor` | libtins/src/ip_reassembler.cpp:94-98 | no streams |
| `IpReassembly.Reassembler.Receive` | libtins/src/ip_reassembler.cpp:100-124 | processing a packet is the specification, erasing a stream that cannot be rebuilt |
| `IpReassembly.NotFragmentedIff` | libtins/src/ip.cpp:159-163 | a packet is left alone, and the streams with it, if and only if its offset is 0, no more fragments follow and the reserved bit is clear |
| `IpReassembly.ForgottenIff` | libtins/src/ip_reassembler.cpp:100-120 | a stream is forgotten if and only if its bytes are all there by number but do not join, and otherwise kept with the fragment added |
| `IpReassembly.ProtocolIsOfTheFirst` | libtins/src/ip_reassembler.cpp:59-60 | the protocol is that of the first packet with offset 0 |
| `IpReassembly.InterleavedReassembly` | libtins/src/ip_reassembler.cpp:100-124 | among any other traffic, each arriving fragment is answered with the original packet if and only if none is missing |
| `IpReassembly.ReusedKeyGetsOldBytes` | libtins/src/ip_reassembler.cpp:108-118 | the stream is kept after success, so a later packet under the same key at a known offset is answered with the old bytes |
| `IpReassembly.ReusedKeyAnswer` | libtins/src/ip_reassembler.cpp:44-118 | what answers any non-empty fragment under that key: the old packet at a known offset, the old packet extended if it is a last fragment at the old end, and otherwise nothing yet |
| `IpReassembly.ReusedKeyIsRightIff` | libtins/src/ip_reassembler.cpp:108-118 | a fragment of a later packet under that key is answered with that packet if and only if the protocols agree and either the fragment starts where the old packet was cut and the payloads agree, or it starts at another offset, is the last one, starts where the old packet ended, and the bytes before it are the old packet |
| `ClientSession.ClientSession.constructor` | logcabin/RPC/ClientSession.cc:187-216 | a connected session, or one with the error of the failed call |
| `ClientSession.ClientSession.SendRequest` | logcabin/RPC/ClientSession.cc:237-262 | a fresh id, a waiting entry, the counter and the timer, as specified |
| `ClientSession.ClientSession.OnReceiveMessage` | logcabin/RPC/ClientSession.cc:58-110 | pings, unknown ids, second replies and first replies, with the waiter notified, are the abstract step |
| `ClientSession.ClientSession.OnDisconnect` | logcabin/RPC/ClientSession.cc:112-130 | the error is set and all waiters are notified, unless an error is set already |
| `ClientSession.ClientSession.NotifyEverybody` | logcabin/RPC/ClientSession.cc:122-128 | the loop over the responses notifies the waiters of every one |
| `ClientSession.ClientSession.HandleTimerEvent` | logcabin/RPC/ClientSession.cc:150-183 | nothing, a ping, or the end of the session with all waiters notified |
| `ClientSession.ClientSession.CancelRPC` | logcabin/RPC/ClientSession.cc:283-314 | the entry is marked and its waiter notified, or it is erased, and the counter is decremented |
| `ClientSession.ClientSession.UpdateRPC` | logcabin/RPC/ClientSession.cc:316-347 | the outcome if there is one, and then the entry is erased |
| `ClientSession.ClientSession.WaitUntilBlocked` | logcabin/RPC/ClientSession.cc:349-377 | one turn of the waiting loop |
| `ClientSession.ClientSession.WakeFromWait` | logcabin/RPC/ClientSession.cc:373-376 | a waiter that wakes clears its mark and tests everything again |
| `ClientSession.InvStep` | logcabin/RPC/ClientSession.cc:58-377 | every step of every thread keeps the counter equation, the ids, the outcomes, the waiters and the timer right |
| `ClientSession.ReachableInv` | logcabin/RPC/ClientSession.cc:58-377 | the invariant holds in every reachable state |
| `ClientSession.ActiveCountIsExactIff` | logcabin/RPC/ClientSession.cc:99-104 | before any error numActiveRPCs is the number of waiting RPCs if and only if the steps of the run that canceled an RPC which was not waiting, or replied to a canceled one, number a multiple of 2^32 |
| `ClientSession.CarefulRunHasNoExcess` | logcabin/RPC/ClientSession.cc:283-314 | a run whose cancels meet only waiting RPCs without a waiter has no such step |
| `ClientSession.CarefulCountIsExact` | logcabin/RPC/ClientSession.cc:99-104 | so in such runs the counter is exact until the first error |
| `ClientSession.ActiveSessionIsTimed` | logcabin/RPC/ClientSession.cc:247-252 | in such runs a connected session with a waiting RPC has its timer armed or its handler about to run |
| `ClientSession.CancelKeepsCountIff` | logcabin/RPC/ClientSession.cc:296-309 | a cancel keeps the counter exact if and only if the entry is absent or waiting |
| `ClientSession.ReceiveKeepsCountIff` | logcabin/RPC/ClientSession.cc:89-108 | a reply keeps the counter exact if and only if the entry is not canceled |
| `ClientSession.CancelAfterReplyLosesTheTimer` | logcabin/RPC/ClientSession.cc:283-314 | a run of four steps after which an RPC waits in a healthy session with no timer |
| `ClientSession.IdsAreFresh` | logcabin/RPC/ClientSession.cc:243-245 | a new id is not the ping id and was never used |
| `ClientSession.RepliesAreFirstReplies` | logcabin/RPC/ClientSession.cc:89-108 | an RPC that ends with a reply ends with the first message that bore its id |
| `ClientSession.UpdateReports` | logcabin/RPC/ClientSession.cc:316-347 | update reports the first message that came for the RPC, even after an error; else the error; else nothing |
| `ClientSession.WaitSleepsIff` | logcabin/RPC/ClientSession.cc:349-377 | a thread goes to sleep if and only if update would have nothing to report |
| `ClientSession.DecisionsArePermanent` | logcabin/RPC/ClientSession.cc:112-130 | a set error, an outcome and a first reply never change |
| `ClientSession.SleepersHaveNothingToDo` | logcabin/RPC/ClientSession.cc:349-377 | no wake-up is lost: a sleeping waiter's RPC still waits and the session has no error |
| `ClientSession.OpenHandlesHaveEntries` | logcabin/RPC/ClientSession.cc:326-340 | the assertions in update hold |
| `ClientSession.SilentServerTimesOut` | logcabin/RPC/ClientSession.cc:150-183 | in such runs the timer alone ends a session whose server stays silent, and wakes every waiter |
| `ClientSession.TimerActs` | logcabin/RPC/ClientSession.cc:151-182 | in careful runs the timer does nothing when no RPC waits, pings a session once, and ends it if the ping is still out |
| `ClientSession.ReplySetsTheTimer` | logcabin/RPC/ClientSession.cc:99-104 | in careful runs a reply sets the timer anew while other RPCs wait and stops it when none does |
| `ClientSession.TimesOutOnlyUnanswered` | logcabin/RPC/ClientSession.cc:150-183 | in such runs a session times out only in its timer's handler, after a ping to which no reply has come |
| `ClientSession.LeftBehindIff` | logcabin/RPC/ClientSession.cc:283-314 | an entry has nobody left to erase it if and only if a reply came for it after its RPC was canceled under a waiter, and that waiter has left |
| `ClientSession.StrayIsForGood` | logcabin/RPC/ClientSession.cc:283-347 | such an entry survives every further step |
| `ClientSession.StrayIsReachable` | logcabin/RPC/ClientSession.cc:283-347 | a run that leaves one: request, wait, cancel, reply, wake-up |
| `ClientSession.EntriesKeptIff` | logcabin/RPC/ClientSession.h:170-174 | a step keeps every waiter its Response if and only if it is not an update that finds an RPC ready while a thread waits for it |
| `ClientSession.WaitersHaveEntriesIff` | logcabin/RPC/ClientSession.cc:316-377 | over whole runs: every waiter has its Response in every state if and only if no update of the run overtakes a waiter |
| `ClientSession.ThreadStays` | logcabin/RPC/ClientSession.cc:349-377 | no step of another thread takes a waiter out of wait |
| `ClientSession.WaitedIsDeleted` | logcabin/RPC/ClientSession.cc:316-377 | such an update is reached: request, wait, reply, update by another thread |
| `ConfigFile.FindIs` | logcabin/Core/Config.cc:162-163 | the search finds the first occurrence or there is none |
| `ConfigFile.LTrimIs` | logcabin/Core/Config.cc:61-66 | a suffix that starts with no white space |
| `ConfigFile.RTrimIs` | logcabin/Core/Config.cc:68-73 | a prefix that ends with no white space |
| `ConfigFile.CleanIs` | logcabin/Core/Config.cc:280-290 | a line is cut at the first comment mark, and only white space is removed around what is left |
| `ConfigFile.LineByLine` | logcabin/Core/Config.cc:280-290 | a text is read line by line, a last line without a line break included |
| `ConfigFile.CleanGood` | logcabin/Core/Config.cc:280-290 | a line read holds no comment mark, no line break and no white space at its ends |
| `ConfigFile.ReadLine` | logcabin/Core/Config.cc:280-290 | the next line, cleaned, or a failure at the end of the text |
| `ConfigFile.ReadValue` | logcabin/Core/Config.cc:174-193 | the loop gathers exactly the lines that continue a value and remembers the line read ahead |
| `ConfigFile.Config.constructor` | logcabin/Core/Config.cc:131-137 | no contents |
| `ConfigFile.Config.ReadEntry` | logcabin/Core/Config.cc:163-197 | one entry is stored and the rest remains to be parsed |
| `ConfigFile.Config.Read` | logcabin/Core/Config.cc:148-201 | the two nested loops with read-ahead equal the parser on lines |
| `ConfigFile.Config.Write` | logcabin/Core/Config.cc:203-212 | the entries are printed in map order |
| `ConfigFile.ParseTextGood` | logcabin/Core/Config.cc:148-201 | what a file says is always well formed |
| `ConfigFile.ParseGives` | logcabin/Core/Config.cc:148-201 | a key has a value if and only if some line sets it or it had one before; the value is that of the last such line, continued up to an empty line, a delimiter or the end |
| `ConfigFile.EmptyLineEndsValue` | logcabin/Core/Config.cc:176-181 | an entry, an empty line and a line without delimiter give the entry only |
| `ConfigFile.PrintThenRead` | logcabin/Core/Config.cc:203-212 | contents survive printing and reading, in any key order, if and only if they are well formed |
| `ConfigFile.CommentInValueIsLost` | logcabin/Core/Config.cc:220-228 | a one-line value set by the program that holds the comment mark does not survive |
| `ConfigFile.RoundTrip` | logcabin/Core/Config.cc:148-212 | for every text, parsing, printing and parsing again gives the map of the first parse, multi-line values and repeated keys included |
| `HandshakeCapturer.Capturer.constructor` | libtins/include/tins/handshake_capturer.h:164-165 | nothing pending and nothing completed |
| `HandshakeCapturer.Capturer.DoInsert` | libtins/src/handshake_capturer.cpp:81-97 | append in order, skip a repeat, clear otherwise |
| `HandshakeCapturer.Capturer.ProcessPacket` | libtins/src/handshake_capturer.cpp:37-79 | a packet is the specified step, and true is returned if and only if a handshake was completed |
| `HandshakeCapturer.MessagesArePositions` | libtins/src/handshake_capturer.cpp:37-97 | the stored messages are those at the recorded positions of the trace |
| `HandshakeCapturer.PendingFollows` | libtins/src/handshake_capturer.cpp:81-97 | what is pending is an uninterrupted run of messages up to the end of the trace |
| `HandshakeCapturer.RunIsPending` | libtins/src/handshake_capturer.cpp:81-97 | every such run is what is pending |
| `HandshakeCapturer.CompletesNow` | libtins/src/handshake_capturer.cpp:63-73 | a frame completes a handshake if and only if it is message 4 after such a run of three |
| `HandshakeCapturer.CapturesExactly` | libtins/src/handshake_capturer.cpp:37-97 | the handshakes reported are exactly those in the trace: messages 1 to 4 of one pair in order, after its latest message 1, with only repeats of message 2 or 3 between |
| `HandshakeCapturer.MessageIff` | libtins/src/handshake_capturer.cpp:37-79 | from the raw bits: a frame is message n of an access point and a station by its direction, its addresses, its key information and whether its nonce is zero |
| `HandshakeCapturer.CapturedIsExchange` | libtins/src/handshake_capturer.cpp:37-79 | whatever is captured is the four messages of IEEE 802.11-2012 in order between one access point and one station |
| `HandshakeCapturer.ExchangeIsCaptured` | libtins/src/handshake_capturer.cpp:37-79 | those four frames are captured if no other key frame of the two comes between |
| `HandshakeCapturer.HandshakesAreDisjoint` | libtins/src/handshake_capturer.cpp:63-73 | two handshakes found that share a frame are the same handshake |
| `HandshakeCapturer.ReportedInOrder` | libtins/src/handshake_capturer.cpp:63-73 | the entries of the list are in the strict order of their fourth messages, so none is listed twice |
| `HandshakeCapturer.EntriesAreDisjoint` | libtins/src/handshake_capturer.cpp:63-73 | no frame is in two entries of the list |

## Left out

- EventLoop.ReachableInv: `numLocks` and `numActiveLocks` are unbounded, not 32 bits wide.
- TcpStream.FollowSegments: segments that reach 2^31 bytes or more away from the delivery point, which a 32-bit number does not tell from nearer ones (`ComparisonIsRightIff`); what is delivered after an erasure beyond a segment's end, which the source leaves undefined.
- TcpStream.Clip: what erasing beyond the end of a segment does, which the source leaves undefined; here nothing is left of the segment and the result says so.
- TcpStream.Stream.Update: packets outside that window or whose bytes differ from what was sent before; which connection a packet belongs to, and the follower's callbacks; SYN and FIN are modelled only as far as they start and end the flows.
- TcpStream.Stream.constructor: the addresses and the first packet's other fields.
- ExactlyOnce.ReachableInv: 64-bit overflow of RPC numbers and entry ids, the tree operations themselves, and the path of a state machine without a client used only by unit tests.
- LeaderSession.ReachableInv: how hosts are resolved and how often a call is retried; SESSION_EXPIRED and unknown errors end the process and are a verdict here.
- PathNames.CanonicalizePath: the text of the error messages; the two errors are told apart.
- DnsMessage.Dns.Add: messages that already hold answers, authority or additional records, whose compressed names the source rewrites; adding resources is not modelled.
- DnsMessage.ConvertRecord: the textual form of IPv4 and IPv6 addresses; they stay bytes.
- DnsMessage.AccessorsReturnTheCounts: the additional section, whose length the parser does not check.
- DnsMessage.QueriesRoundTrip: names with an empty label or one above 63 bytes, a zero byte, or more than 255 bytes, which are not legal names; 32-bit lengths are unbounded.
- Ccmp.Decrypt: AES itself, payloads shorter than 16 bytes, for which the source computes a negative size, and the SNAP packet built from the plaintext.
- Ccm.SealIsStandard: additional data of 14 bytes or less, which 802.11 headers never have.
- IpReassembly.AllocatePdu: parsing the rebuilt payload into a packet of its protocol.
- ClientSession.ClientSession.WakeFromWait: the write to a Response that another thread's update has deleted, which the source leaves undefined; here it has no effect, and `WaitersHaveEntriesIff` says which runs have none.
- EventLoop.ExitReturnsSoon: that the scheduler runs a thread that can run, and how long handlers take.
- ClientSession.ReachableInv: 2^32 or more RPCs waiting at once, more than one waiter per RPC; sending is not modelled beyond whether a ping is sent.
- ConfigFile.RoundTrip: marks that are empty or hold white space; "=" and "#" are neither.
- ConfigFile.Config.Read: opening the file, an empty delimiter, and a stream that has already failed.
- WEP, TKIP and key derivation, the other protocol headers and their options, the pcap and socket layers, protocol buffers and logging: foreign calls or easy members.
- The Raft server beyond its client sessions, and the monitor's own scripts.
