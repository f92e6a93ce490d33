# liblxi: a model of its protocol logic

liblxi talks to LXI test instruments over VXI-11 (an ONC RPC protocol) and raw TCP.  This project
models the four parts of the library that hold its hard logic and proves what they do for every input,
every interleaving and every reply a peer may give.  Check it with `dafny verify dfyconfig.toml`.

| module | what it models |
|---|---|
| `TimedConnect`, `Deadline` | `vxi11_connect`: caller, waiter and worker threads, a mutex, a condition variable, the flag `joined`, an absolute deadline and deferred cancellation, as a step system over all interleavings |
| `Sessions`, `SessionTable`, `SessionThreads` | the 1024-slot session table: as a value with its invariant, as the class the API calls update in place, and as a step system for any number of threads |
| `ApiThreads` | the two step systems composed: any number of threads in the API, each VXI-11 connect played out as the three-thread protocol |
| `Vxi11Receive`, `TcpTransfer` | the transfer loops of the two backends, against peers that split the data as they like |
| `Xdr`, `XdrStream`, `XdrCodec`, `XdrPaths`, `Vxi11Messages`, `Delivery`, `RpcDispatch` | the XDR codecs with their inline paths, the VXI-11 messages, the client stubs and the server's dispatch switches, end to end |
| `Discovery` | link pairing, callbacks and identification strings of broadcast discovery |

The environment is nondeterministic: what the operating system, the RPC transport and the instrument do
enters as steps (threads) or as sequences of results (transfers, discovery), always universally quantified.

## What the model says openly about the code

These are properties of the code as it stands; the model keeps them, and each has a lemma or a contract.

- `_pthread_timedjoin` holds the mutex while it joins the waiter.  A timeout just after the waiter has joined
  the worker therefore deadlocks (`DeadlockIsReachable`); a call can still finish exactly when it is not in
  that window and not spinning (`CanFinishIffNotLost`).  The mutex is still held when it is destroyed.
- `lxi_connect` calls the backend's connect with the session mutex held.  A `vxi11_connect` that deadlocks or spins
  therefore freezes the whole API: every other connect, disconnect and validation waits for that mutex for ever, and
  only transfers that were already validated complete (`LostConnectFreezesApi`, `StuckIsReachable`).  Some step
  is possible exactly unless such a deadlock holds everybody up (`CanStepUnlessStuck`), and a connect can still return
  exactly if it is neither deadlocked nor spinning (`ConnectCanReturnIffNotLost`).
- A deadline with `tv_nsec` out of range, which a negative timeout can produce, makes every wait return EINVAL
  with the mutex held: the loop spins for ever (`InvalidDeadlineNeverReturns`, `NegativeTimeoutSpins`).
  `DeadlineIsExact` gives the exact condition.
- A timed-out connect can leave an RPC client behind (`TimeoutCanLeakClient`), and always does when the link succeeds
  between the timeout and the cancellation (`LateLinkLeaksClient`); `ClientsConservedIff` says exactly when.
- `is_valid_session` admits the device number 1024 and reads one slot past the array.  Each call has a parameter for
  what it reads there: if it is zero the number is refused like any other (`ValidIffLiveUnlessStray`), and if not the
  program is undefined from there on, which the model says with an outcome of its own.
- `lxi_disconnect` validates, unlocks and locks again: with two owners of one handle the later one frees a block twice
  or, if the slot was given out again, closes and frees somebody else's session (`LateDisconnect`); with one owner
  neither happens.  `lxi_send` and `lxi_receive` use the slot unlocked, which is safe for its owner
  (`UnlockedUseIsSafe`) and otherwise may use a freed block or somebody else's session (`LateTransfer`).  `lxi_init`
  neither locks nor frees (`InitLeaksIffLive`).
- The status block the worker allocates is never freed: every `vxi11_connect` that starts its worker leaks one
  (`StatusBlockLeaksIff`).
- `tcp_send` and `tcp_receive_` offset the buffer by the last count, not by the running total; that is faithful
  exactly up to two segments (`SendIsFaithfulIffTwoCalls`, `ReceiveIsFaithfulIffTwoSegments`).  The manual page
  of `lxi_send` promises the whole message; the model follows the code.
- `vxi11_receive` keeps its total in an `int`; an overrun is noticed exactly when that does not wrap
  (`OverrunSeenIffNoWrap`).
- The inline codec paths code a boolean as a plain integer.  They agree with `xdr_bool` exactly on 0 and 1
  (`EncodingPathsAgreeIffCanonical`, `DecodingPathsAgreeIffCanonical`), and a message with other booleans arrives
  exactly as `Delivered` says.
- `get_device_id` writes its terminator one past the buffer for a reply of 65536 bytes and reads the byte before
  the buffer for a reply that is a lone newline (`Terminate`).

## Model

| member | source | states |
|---|---|---|
| `Deadline.DeadlineIsExact` | src/vxi11.c:196-203 | the deadline is exactly `timeout` milliseconds from now for every sign of the timeout; it is well-formed if and only if the clock's nanoseconds cover what a negative timeout takes away |
| `Deadline.RelativeTimeoutIsExact` | src/tcp.c:189-191 | the split into seconds and microseconds loses nothing; the microseconds are in range if and only if the timeout is not negative or is whole seconds |
| `TimedConnect.RunKeepsInv` | src/vxi11.c:93-227 | in every interleaving, the invariant tying mutex, flag, cancellation requests, joins, status and RPC clients to the positions of the three threads holds in every reachable state |
| `TimedConnect.ReturnedMeansJoinedOnce` | src/vxi11.c:205-226 | when `vxi11_connect` has returned, both threads have ended and the worker was joined exactly once, by the waiter when the timed join gave 0 and by the caller otherwise; the worker was cancelled if and only if the timed join did not give 0; the code returned is the worker's own or -1, and the worker's is 0 if and only if `create_link_1` succeeded |
| `TimedConnect.WorkerStatusIff` | src/vxi11.c:130-171 | in every run, a worker that has ended has status 0 if and only if `create_link_1` succeeded; status -1 takes a failed `clnt_create` or `create_link_1`; a cancelled worker never had its link |
| `TimedConnect.ReturnsZeroIffLinked` | src/vxi11.c:205-226 | in every run, `vxi11_connect` returns 0 if and only if the waiter joined the worker in time and `create_link_1` had succeeded, else -1, and `lxi_connect` frees the block exactly then |
| `TimedConnect.FailureHasAReason` | src/vxi11.c:205-226 | a return of -1 means that the set-up failed, that `clnt_create` or `create_link_1` failed, or that the wait timed out; a spurious wakeup is no reason |
| `TimedConnect.TimedJoinZeroIffWaiterJoined` | src/vxi11.c:104-128 | the timed join gives 0 if and only if the waiter joined the worker, and a timeout if and only if nobody did |
| `TimedConnect.StatusIsReal` | src/vxi11.c:214-226 | `*thread_status` is read only when it points to a status the worker allocated, never to the cancellation marker |
| `TimedConnect.StepsTouchOnlyLiveMemory` | src/vxi11.c:93-102 | no step of the waiter or the worker touches a stack frame that has been left or a data block that has been freed |
| `TimedConnect.NothingRunsAfterFree` | src/lxi.c:149-162 | after `lxi_connect` has dealt with the result, and so after its free, no thread has a step left |
| `TimedConnect.JoinedWrittenByHolder` | src/vxi11.c:97-99 | `joined` only ever becomes true, in a step of the thread holding the mutex, while the caller is in the wait |
| `TimedConnect.JoinedFrozenAfterLoop` | src/vxi11.c:116-127 | once the wait loop is left, no interleaving re-enters it or changes `joined` |
| `TimedConnect.NoLostWakeup` | src/vxi11.c:97-118 | with `joined` set the caller never waits for a signal already sent, and its next return from the wait, timeout included, leaves the loop |
| `TimedConnect.SpuriousIsHarmless` | src/vxi11.c:116-118 | in every wait a spurious wakeup is possible, and with the flag unset and the mutex free it brings the caller back to the very same state |
| `TimedConnect.MutexDestroyedWhileHeld` | src/vxi11.c:121-125 | the caller holds the mutex whenever it joins the waiter and whenever it destroys the mutex |
| `TimedConnect.ClientsLeftIff` | src/vxi11.c:130-160 | in every run, once the worker has ended one RPC client is left if and only if a step left it: the exit with status 0, a cancellation while linking, or a cancellation in a call that keeps the client |
| `TimedConnect.ClientsConservedIff` | src/vxi11.c:205-226 | when the call has returned, one client exists exactly for a return of 0, if and only if the connect did not time out or no step of the run left a client |
| `TimedConnect.AfterTimeoutClientsLeftIff` | src/vxi11.c:215-224 | after a timeout -1 is returned; a worker that ended by itself has left the client if and only if `create_link_1` succeeded, a cancelled one exactly as the run says |
| `TimedConnect.TimeoutCanLeakClient` | src/vxi11.c:215-224 | a run that cancels the worker while linking, returns -1 and leaves an RPC client behind |
| `TimedConnect.LateLinkLeaksClient` | src/vxi11.c:151-224 | a run in which `create_link_1` succeeds between the timeout and the cancellation, which returns -1 and leaves the client |
| `TimedConnect.StatusBlockLeaksIff` | src/vxi11.c:162-171 | when the call has returned, exactly one status block has been allocated and none freed if the worker was started, and none has been allocated otherwise |
| `TimedConnect.StuckIffDeadlocked` | src/vxi11.c:112-122 | a reachable unfinished state has no enabled step if and only if the caller joins the waiter holding the mutex that the waiter, past its own join, needs |
| `TimedConnect.RunsAreShort` | src/vxi11.c:93-227 | with a valid deadline every run has at most 30 steps and four more for each spurious wakeup |
| `TimedConnect.CanFinishIffNotLost` | src/vxi11.c:116-122 | with any deadline, a reachable state can still finish if and only if the wait has not timed out with the waiter already past its join, and the worker was not started with a deadline that every wait refuses |
| `TimedConnect.DeadlockIsReachable` | src/vxi11.c:116-122 | a run into the deadlock |
| `TimedConnect.InvalidDeadlineNeverReturns` | src/vxi11.c:116-118 | with an invalid deadline, once the worker exists the caller stays in the wait loop for ever and can always take another turn |
| `TimedConnect.NegativeTimeoutSpins` | src/vxi11.c:196-214 | every negative timeout whose fraction of a second exceeds the clock's gives such a deadline |
| `Sessions.RangeTestAdmitsOnePastTheEnd` | src/lxi.c:60-67 | the range test is an index test for every device number but 1024 |
| `Sessions.ValidIffLiveUnlessStray` | src/lxi.c:56-81 | a device validates exactly if it is a live handle, if and only if it is not 1024 with a nonzero byte past the array |
| `Sessions.ConnectRefinesMap` | src/lxi.c:97-167 | connect as an operation on the handle map: lowest unused handle, "too many" if and only if all 1024 are live, success if and only if the protocol has a backend that connects, no other handle changed |
| `Sessions.ConnectCode` | src/lxi.c:104-166 | the code returned is the lowest free number, and the slot then has the VXI-11 functions for VXI11 and the TCP functions for RAW, if a number is free, the protocol is one of these two and the backend connects; otherwise -1 |
| `Sessions.DisconnectRefinesMap` | src/lxi.c:169-189 | for every device: disconnect removes exactly the given handle if it is live, frees its block and closes its connection, otherwise changes nothing, and is undefined exactly for 1024 with a nonzero byte past the array |
| `Sessions.RunKeepsGood` | src/lxi.c:83-221 | every run of calls keeps the invariant: allocated equals connected, live sessions own distinct unfreed blocks, every other block was freed once, open connections are those of the live sessions; it is undefined if and only if some call passes 1024 and finds a nonzero byte past the array |
| `Sessions.BlocksAreConserved` | src/lxi.c:83-189 | after one `lxi_init`, in every run that stays defined, blocks allocated minus blocks freed is the number of live handles, failed connects and unsupported protocols included, and no block is freed twice |
| `Sessions.LiveHandleIsStable` | src/lxi.c:104-158 | a handle keeps its backend and block through all calls that do not disconnect it, as long as the run stays defined |
| `Sessions.InitLeaksIffLive` | src/lxi.c:83-95 | a further `lxi_init` clears both flags of every slot and nothing else, so it forgets every handle, and breaks conservation if and only if one was live |
| `Sessions.DoubleFreeIffCleared` | src/lxi.c:174-186 | the locked half of disconnect frees twice if and only if the slot is cleared and still has its old pointer |
| `Sessions.LateDisconnect` | src/lxi.c:171-186 | a second disconnect that validated before the first one finished, after any calls in between: it frees a block twice if and only if the handle is free, and otherwise closes and frees the session the handle now stands for |
| `Sessions.LateDisconnectDoesBoth` | src/lxi.c:171-186 | both outcomes occur: at once, and when a connect takes the slot in between |
| `Sessions.LateTransfer` | src/lxi.c:195-199 | a transfer after any calls since its validation: it uses the session it validated if and only if none of them disconnected the handle, and otherwise a freed block if and only if the handle is free, else the session the handle now stands for |
| `SessionTable.SessionTable.constructor` | src/lxi.c:45-46 | the static array starts zeroed |
| `SessionTable.SessionTable.LxiInit` | src/lxi.c:83-95 | the loop clears every slot's two flags and nothing else |
| `SessionTable.SessionTable.LxiConnect` | src/lxi.c:97-167 | the scan, the backend switch and the cleanup paths change the array, heap and connections exactly as `Connect` says, on every path; the code is the lowest free number or -1 |
| `SessionTable.SessionTable.Allocate` | src/lxi.c:124-137 | a slot's backend and a fresh block are set, nothing else |
| `SessionTable.SessionTable.IsValidSession` | src/lxi.c:56-81 | true exactly for devices in range whose slot is allocated, and for 1024 exactly if the byte past the array is not zero |
| `SessionTable.SessionTable.LxiDisconnect` | src/lxi.c:169-189 | for every device the update in place is `Disconnect`, with the matching return code; no code where the program is undefined |
| `SessionTable.SessionTable.Transfer` | src/lxi.c:191-221 | send and receive hand over exactly the session the handle stands for, fail for any other device, and return the backend's count or the error; no code where the program is undefined |
| `SessionThreads.StepKeepsInv` | src/lxi.c:56-221 | any device may be passed by any thread; if a disconnect that finds its handle live is called by the handle's owner (`Dutiful`), every step of any thread keeps mutual exclusion, ownership, each thread's local assertions and the table invariant up to the critical section in progress |
| `SessionThreads.StepRefines` | src/lxi.c:97-221 | one step is invisible in the handle map or is one legal operation on it: open, close, find, not live, or a failure of connect |
| `SessionThreads.TableRefinesHandleMap` | src/lxi.c:97-189 | every interleaving of any number of dutiful threads, calls with dead numbers included, performs a legal sequential history on the handle map, and the table always shows the map that history leads to |
| `SessionThreads.ConnectResultIsTrue` | src/lxi.c:104-119 | a handle about to be returned is live and the caller's own; "too many" is reported only when all handles are live |
| `SessionThreads.BlocksFreedOnce` | src/lxi.c:160-186 | no block is freed twice in any interleaving of dutiful threads, and outside critical sections the whole invariant holds |
| `SessionThreads.MutexReleasedByHolder` | src/lxi.c:102-174 | every unlock, of refused validations too, is by the holder, and no thread leaves the library with the mutex |
| `SessionThreads.MutualExclusion` | src/lxi.c:70-77 | at most one thread is between lock and unlock |
| `SessionThreads.UnlockedUseIsSafe` | src/lxi.c:199-215 | a transfer's unlocked read by the handle's owner finds the session it was given, with an unfreed block and an open connection |
| `SessionThreads.StrangerUsesFreedIffNotLive` | src/lxi.c:199-215 | a transfer by anybody reads a slot with both pointers, whose block is freed, outside critical sections, if and only if the handle is no longer live |
| `SessionThreads.RunIsLinearised` | src/lxi.c:97-221 | every run of any number of dutiful threads: each call is invoked, performs exactly one operation of its own thread before it returns (none if its device fails the range test) and is answered as that operation says, a connect with a handle only after its own backend's connect returned zero, with a failure of the backend only after that returned something else, and otherwise without any; all operations in order are a legal sequential history, which the table shows |
| `SessionThreads.DeadNumberIsRefused` | src/lxi.c:70-80 | from any state with the mutex free, any idle thread can pass any number that is not live, 1024 included, and is refused with the table unchanged and the mutex released |
| `SessionThreads.ConnectAlone` | src/lxi.c:97-167 | from any state with the mutex free, the step system has a run of one thread alone that does to the table, and answers, exactly what the sequential `Connect` does, for every protocol and status |
| `SessionThreads.DisconnectAlone` | src/lxi.c:169-189 | the same for a disconnect of any device that is the thread's own if it is live |
| `SessionThreads.TransferAlone` | src/lxi.c:191-221 | the same for a transfer by any thread: it succeeds exactly on a live handle and leaves the table alone |
| `SessionThreads.CanStepUnlessHeldUp` | src/lxi.c:102-155 | with a thread inside, a step other than the return of a backend's connect is possible if and only if it is not the case that the mutex holder is in its connect and every other thread inside waits for the mutex |
| `SessionThreads.OthersWhileDialling` | src/lxi.c:148-155 | while a thread is in its backend's connect, other threads can only call, hand over and complete validated transfers, and none of these changes the table or the mutex |
| `SessionThreads.FrozenWhileDialling` | src/lxi.c:148-155 | for as long as a thread stays in its connect the table is unchanged and every thread that waits for the mutex waits on |
| `ApiThreads.StepKeepsInv` | src/lxi.c:148-155 | in the composed system with dutiful clients, exactly the threads inside a VXI-11 connect have a protocol under way, and each keeps the protocol's invariant |
| `ApiThreads.RunProjects` | src/lxi.c:97-189 | every composed run is a run of the library, so all its safety results carry over |
| `ApiThreads.ConnectProjects` | src/lxi.c:148-155 | every VXI-11 connect in progress in the composed system is a run of its protocol, so all results about those runs carry over |
| `ApiThreads.Vxi11AnswerIsTrue` | src/lxi.c:148-166 | in every composed run, a VXI-11 connect is answered with a handle if and only if its own protocol had returned with the worker joined by the waiter after `create_link_1` succeeded, and with a failure of the backend if and only if it had returned otherwise |
| `ApiThreads.NoHelperOutlivesConnect` | src/lxi.c:149-162 | when a VXI-11 connect returns to `lxi_connect`, and so before any free of its block, no helper thread is left |
| `ApiThreads.CanStepUnlessStuck` | src/lxi.c:148-155 | with a thread inside, some step is possible if and only if it is not the case that a deadlocked VXI-11 connect holds the session mutex and every other thread inside waits for it |
| `ApiThreads.LostConnectFreezesApi` | src/lxi.c:148-155 | once a VXI-11 connect is lost, in every continuation the mutex stays held, the table never changes and every thread waiting for the mutex waits for ever |
| `ApiThreads.ConnectCanReturnIffNotLost` | src/lxi.c:148-155 | in every reachable state a VXI-11 connect can still return if and only if it is neither in the fatal window nor spinning |
| `ApiThreads.FreshConnectCanDeadlock` | src/vxi11.c:116-122 | whatever the rest of the state, a VXI-11 connect that has just begun can reach the deadlock |
| `ApiThreads.StuckIsReachable` | src/lxi.c:148-155 | a run after which two threads are inside and no step inside is possible |
| `Vxi11Receive.Vxi11Receive` | src/vxi11.c:264-323 | blocked if and only if every reply asks for more; -1 if the first that does not is an RPC failure, a device error or an overrun the code sees, else the number of bytes in all replies as an `int`; the buffer holds exactly what was deposited |
| `Vxi11Receive.Deposit` | src/vxi11.c:286-289 | a reply's data lands at the offset in the buffer and nowhere else |
| `Vxi11Receive.OverrunSeenIffNoWrap` | src/vxi11.c:301-310 | an overrun is reported if and only if the total still fits an `int` |
| `Vxi11Receive.StopsAtFirst` | src/vxi11.c:282-322 | for every reply stream and length, wrap-around of the total included: the call stops at the first reply that does not ask for more, returning the number of bytes as an `int`, or failing on an RPC failure, device error or overrun the code sees, with exactly the deposited bytes in the buffer |
| `Vxi11Receive.AcceptsIffFits` | src/vxi11.c:301-310 | as long as the number of bytes fits an `int`, a reply is refused for its size if and only if it does not fit the buffer |
| `Vxi11Receive.DepositedInOrder` | src/vxi11.c:286-312 | as long as the total fits an `int`, the pieces follow each other in the buffer |
| `Vxi11Receive.WaitsWhileAllContinue` | src/vxi11.c:282-319 | while every reply asks for more the call waits, holding exactly what was deposited |
| `Vxi11Receive.FailsIffBadReply` | src/vxi11.c:289-310 | for every reply stream and length, the call fails if and only if, after replies that ask for more, one is an RPC failure, a device error or an overrun the code sees |
| `Vxi11Receive.NoOverrunWithinRequest` | src/vxi11.c:287-310 | when no reply exceeds its request, the call fails if and only if a reply it sees is an RPC failure or a device error: the too-small branch is never taken |
| `Vxi11Receive.ReceiveFromConforming` | src/vxi11.c:264-323 | for every conforming device and split, the call never fails, returns min(message, buffer) with exactly that prefix stored and the rest untouched, and waits for no more replies than bytes and empty replies |
| `Vxi11Receive.ChunkingDoesNotMatter` | src/vxi11.c:281-319 | two splits of one message give the same count and the same buffer |
| `Vxi11Receive.SentIsReceived` | src/vxi11.c:279-322 | when a call returns, the device has sent exactly the bytes the call reports |
| `Vxi11Receive.PiecesMakeTheMessage` | src/vxi11.c:279-322 | repeated calls with any positive buffer sizes return pieces that concatenate to the message, nothing lost or repeated |
| `TcpTransfer.TcpSend` | src/tcp.c:180-228 | for every length: the call puts on the wire exactly what last-count addressing selects; it waits if and only if every `send` has succeeded and the total falls short of the length, returns -1 at the first that fails and the length at the first that reaches it; it is undefined exactly for a negative length whose one call reads past the message |
| `TcpTransfer.SendUntilDone` | src/tcp.c:205-220 | the same for its loop |
| `TcpTransfer.SameOffsetsIffTwo` | src/tcp.c:206-218 | last-count and running-total addressing use the same offsets if and only if at most two segments occur |
| `TcpTransfer.SendCountsUp` | src/tcp.c:215-220 | the loop sends at most the length, and exactly the length when it succeeds |
| `TcpTransfer.SendTerminates` | src/tcp.c:206-218 | with positive segments it is over after as many calls as bytes |
| `TcpTransfer.SendReadsInside` | src/tcp.c:208 | neither addressing reads outside the bytes to be sent |
| `TcpTransfer.RunningTotalSendsMessage` | src/tcp.c:205-220 | the running-total form transmits exactly the message for every split |
| `TcpTransfer.ThirdCallStartsAtSecondCount` | src/tcp.c:208 | the third call's first byte comes from the offset given by the second count |
| `TcpTransfer.SendIsFaithfulIffTwoCalls` | src/tcp.c:205-220 | the loop as written transmits every message intact if and only if at most two calls are needed |
| `TcpTransfer.SendInTwoCalls` | src/tcp.c:205-220 | a whole message taken in at most two parts arrives intact |
| `TcpTransfer.OneCallIsEnough` | src/tcp.c:205-263 | a `send` that takes the whole message and a `recv` that gives one are possible, and then it arrives |
| `TcpTransfer.TcpReceive` | src/tcp.c:230-271 | for every length: the loop stores what last-count addressing selects; it waits if and only if every `recv` was positive and at the first that is not returns the number of bytes taken off the stream; it is undefined exactly if a call writes past the buffer, which needs a negative length |
| `TcpTransfer.StaysInside` | src/tcp.c:255 | a length that is not negative keeps every write inside the buffer |
| `TcpTransfer.RecvCountsUp` | src/tcp.c:253-263 | at most `length` bytes are taken, and the loop is over after as many calls as there is room |
| `TcpTransfer.RunningTotalFillsBuffer` | src/tcp.c:252-263 | the running-total form leaves the stream prefix in the buffer for every split |
| `TcpTransfer.ReceiveIsFaithfulIffTwoSegments` | src/tcp.c:252-263 | the loop as written stores every stream in order if and only if at most two nonempty segments arrive |
| `TcpTransfer.ReceiveInTwoSegments` | src/tcp.c:252-263 | with at most two segments the buffer holds exactly the bytes counted and is untouched behind them |
| `Xdr.UnitRoundTrip` | src/vxi11core_xdr.c:8-26 | a 32-bit word survives its big-endian unit, whatever follows |
| `Xdr.UnitIsBigEndian` | src/vxi11core_xdr.c:8-26 | four bytes are the unit of a word if and only if they are its base-256 digits, most significant first |
| `Xdr.EncodeIsOnTheWire` | src/vxi11core_xdr.c:59-108 | a field is encoded as exactly the bytes section 4 of RFC 4506 prescribes: two's complement big-endian words, booleans 0 or 1, counted fields as length, data and zeros up to a multiple of four |
| `Xdr.ScalarReadsTheWire` | src/vxi11core_xdr.c:8-57 | a scalar decodes from any four bytes to the value of its type that agrees with them in its low bits, a boolean to whether they are not all zero |
| `Xdr.CountedReadsTheWire` | src/vxi11core_xdr.c:129-144 | a counted field decodes if and only if its length is within the maximum and its data and padding are there, to exactly that data, a string up to its first NUL; the padding may hold anything |
| `Xdr.FieldsInOrder` | src/vxi11core_xdr.c:129-144 | field i of an encoding stands behind all units of the fields before it, for every layout |
| `Xdr.RoundTrip` | src/vxi11core_xdr.c:8-452 | for every layout of fields, decoding an encoding followed by any bytes gives the fields back and leaves exactly those bytes |
| `Xdr.EncodingSize` | src/vxi11core_xdr.c:8-452 | an encoding is four bytes times the exact number of units its fields take |
| `Xdr.PrefixFails` | src/vxi11core_xdr.c:8-452 | no proper prefix of an encoding decodes |
| `Xdr.PrefixFree` | src/vxi11core_xdr.c:8-452 | one encoding is a prefix of another if and only if the values are equal |
| `Xdr.DecodedIsCanonical` | src/vxi11core_xdr.c:8-452 | whatever arrives, decoded fields are in range, canonical and encodable |
| `XdrStream.PutFieldsIsEncodeAll` | src/vxi11core_xdr.c:129-144 | a codec succeeds if and only if every field is within its bound and the whole fits the stream, and then appends exactly the encoding, whose bytes `Xdr.EncodeIsOnTheWire` and `Xdr.FieldsInOrder` fix |
| `XdrStream.WrittenInOrder` | src/vxi11core_xdr.c:129-144 | what a codec has written holds, in each field's place, exactly the bytes prescribed for it |
| `XdrStream.RawIsEncodedIffCanonical` | src/vxi11core_xdr.c:64-80 | the inline macros write what the field-by-field path writes if and only if every boolean is 0 or 1 |
| `XdrStream.InlineEncodesTheSame` | src/vxi11core_xdr.c:165-186 | with canonical booleans both encoding paths give the same success and bytes, wherever inline space is granted or room runs out |
| `XdrStream.EncodingPathsAgreeIffCanonical` | src/vxi11core_xdr.c:365-392 | when the span is reached with room, the two encoding paths agree if and only if its booleans are canonical |
| `XdrStream.RawIsDecodedIffCanonical` | src/vxi11core_xdr.c:82-100 | reading a span inline agrees with reading its fields if and only if its boolean units are 0 or 1 |
| `XdrStream.InlineDecodesTheSame` | src/vxi11core_xdr.c:187-209 | both decoding paths give the same success, values and position on every input with canonical booleans in the span |
| `XdrStream.DecodingPathsAgreeIffCanonical` | src/vxi11core_xdr.c:393-421 | on input that decodes, the two decoding paths agree if and only if the span's booleans are canonical |
| `XdrCodec.Encoder.PutOne` | src/vxi11core_xdr.c:59-108 | one primitive in encode mode: it succeeds if and only if the field is within its bound and fits, and has then written exactly the prescribed bytes; a counted field writes its length before the bound is checked |
| `XdrCodec.Encoder.PutInlineSpan` | src/vxi11core_xdr.c:274-294 | writing through the inline cursor, or field by field when there is none, is the span of the specification |
| `XdrCodec.Encoder.PutAll` | src/vxi11core_xdr.c:365-392 | a whole codec in encode mode leaves the stream the specification gives |
| `XdrStream.FillMessageIsGet` | src/vxi11core_xdr.c:393-421 | a decoder succeeds exactly when the message decodes, with its members and its rest |
| `XdrStream.FillStopsAtFirstFailure` | src/vxi11core_xdr.c:129-144 | a decoder that fails has filled exactly the members before the first field that does not decode, and has stopped in that field |
| `XdrStream.FailedFieldStops` | src/vxi11core_xdr.c:129-144 | where a field that does not decode leaves the stream: before a length that is not there, behind the length of data that is too long or short, behind the data when only padding is missing |
| `XdrCodec.Decoder.GetOne` | src/vxi11core_xdr.c:59-108 | one primitive in decode mode, with its value and the stream position, after a failure too |
| `XdrCodec.Decoder.GetInlineSpan` | src/vxi11core_xdr.c:295-316 | reading through the inline cursor, or field by field, fills exactly the specified members and leaves the specified position, also when it fails |
| `XdrCodec.Decoder.GetAll` | src/vxi11core_xdr.c:393-421 | a whole codec in decode mode fills exactly the specified members and stops where it stops, also when it fails |
| `XdrPaths.EncodesByPath` | src/vxi11core_xdr.c:64-80 | for every value, canonical or not, encoding is field-by-field encoding with the inline span's booleans taken as integers |
| `XdrPaths.DecodesByPath` | src/vxi11core_xdr.c:82-100 | the same for decoding, on every input |
| `XdrPaths.FieldsArrive` | src/vxi11core_xdr.c:64-108 | whichever paths the two ends take, every field arrives, a boolean normalised exactly if either end takes it for one |
| `XdrPaths.ArrivesUnchangedIff` | src/vxi11core_xdr.c:64-108 | nothing changes on the way if and only if every field that either end takes for a boolean is 0 or 1 |
| `XdrPaths.PrefixFailsByPath` | src/vxi11core_xdr.c:64-108 | a truncated encoding does not decode, whichever paths the ends take |
| `Vxi11Messages.MembersRoundTrip` | src/vxi11core_xdr.c:8-452 | every struct is determined by its members in coding order |
| `Vxi11Messages.MembersStandInOrder` | src/vxi11core.h:31-151 | every member of every message, by name, stands in the declared order and is coded as its C type prescribes |
| `Vxi11Messages.WellTypedByName` | src/vxi11core.h:31-151 | a message is a value of its struct if and only if the C type of each member, by name, holds its value |
| `Vxi11Messages.SpansAsGenerated` | src/vxi11core_xdr.c:64-421 | exactly four codecs have an inline path, and these are the members on it |
| `Vxi11Messages.MessageRoundTrip` | src/vxi11core_xdr.c:8-452 | every message type: decoding the encoding followed by any bytes gives the message and leaves those bytes |
| `Vxi11Messages.MessagesPrefixFree` | src/vxi11core_xdr.c:8-452 | encodings of one type are injective and prefix-free |
| `Vxi11Messages.TruncatedMessageFails` | src/vxi11core_xdr.c:8-452 | an encoding cut short anywhere does not decode |
| `Vxi11Messages.OnlySrqHandleIsBounded` | src/vxi11core_xdr.c:331-343 | a message can be refused for its size if and only if it is an SRQ request with a handle over 40 bytes |
| `Vxi11Messages.SrqRequestDecodesIff` | src/vxi11core_xdr.c:331-343 | an SRQ request decodes if and only if its handle is announced with at most 40 bytes and they are all there |
| `Vxi11Messages.StreamRoundTrip` | src/vxi11core_xdr.c:8-452 | through the streams, with or without inline space at either end, a message is encoded and read back exactly |
| `Vxi11Messages.OddBooleanDiffers` | src/vxi11core_xdr.c:64-80 | a link request with lockDevice 2 is encoded differently by the two paths |
| `Delivery.MessageIsDelivered` | src/vxi11core_xdr.c:8-452 | any message is encoded if and only if it is within its bounds and fits, and is then read as `Delivered` |
| `Delivery.DeliveredKeepsTruth` | src/vxi11core_xdr.c:59-108 | every member arrives, a boolean at least with its truth value |
| `Delivery.DeliveredExactlyIff` | src/vxi11core_xdr.c:331-343 | a message arrives exactly as sent if and only if its booleans are 0 or 1, or both ends coded them inline, which an SRQ request never does |
| `Delivery.TruncatedIsNotRead` | src/vxi11core_xdr.c:8-452 | what was written, cut short anywhere, is not read |
| `RpcDispatch.SwitchMatchesStubs` | src/vxi11core_svc.c:106-204 | a number selects a handler with given codecs if and only if that handler's stub, of that program, uses this number and these codecs |
| `RpcDispatch.NumbersAsDeclared` | src/vxi11core.h:156-215 | each stub uses the procedure number declared for it, and no two share one |
| `RpcDispatch.CodecsAsDeclared` | src/vxi11core.h:156-215 | each stub uses the codecs of the argument and result types it is declared with |
| `RpcDispatch.DeviceAsync1` | src/vxi11core_svc.c:19-64 | the abort channel's switch and tail produce exactly the specified reply and call, for every number and request |
| `RpcDispatch.DeviceCore1` | src/vxi11core_svc.c:66-222 | the same for the core channel |
| `RpcDispatch.Dispatch` | src/vxi11core_svc.c:205-213 | behind the switch: arguments decoded, handler called once, reply encoded, each failure answered as specified |
| `RpcDispatch.UnknownProcedureReachesNoHandler` | src/vxi11core_svc.c:201-204 | a number no stub uses reaches no handler; 0 is acknowledged, others are refused |
| `RpcDispatch.HandlerRunsOnlyForItsOwnCall` | src/vxi11core_svc.c:106-213 | a handler that runs is the one whose program and number were called, on what the request decodes to, and goes unanswered if and only if it declines |
| `RpcDispatch.ResultComesBack` | src/vxi11core_clnt.c:12-158 | the client decodes exactly the handler's result if and only if it was given room |
| `RpcDispatch.CallIsEndToEnd` | src/vxi11core_clnt.c:12-158 | for every procedure, argument, handler and transport, exactly which handler receives which argument and what the client gets back, failures included |
| `RpcDispatch.PlainCallIsExact` | src/vxi11core_clnt.c:12-158 | with booleans 0 or 1 the handler receives exactly the client's argument, whichever paths the codecs take |
| `RpcDispatch.TruncatedRequestReachesNoHandler` | src/vxi11core_svc.c:205-209 | a request cut short anywhere is refused as garbage and reaches no handler |
| `RpcDispatch.WrongChannelReachesNoHandler` | src/vxi11core_svc.c:32-46 | a stub used over the other program's channel reaches no handler |
| `Discovery.StripRemovesLineEnd` | src/vxi11.c:377-385 | every usual line end is removed and nothing of the text before it |
| `Discovery.StripIsText` | src/vxi11.c:377-385 | for every reply, what is left is the one text to which the reply adds a newline, a carriage return, both in this order, or nothing |
| `Discovery.UsualReplyIsIdentified` | src/vxi11.c:374-385 | a reply with any of the four line ends identifies its device by its text and by nothing else |
| `Discovery.Finder.Terminate` | src/vxi11.c:374-386 | the string left in `id` is the stripped reply; the code stays inside the buffer if and only if the reply leaves room for the terminator and is not a lone newline |
| `Discovery.Finder.GetDeviceId` | src/vxi11.c:354-454 | a link that was opened is closed on every path; -1 if and only if a call failed or the reply was empty and HTTP gave nothing, else 0 with the text of the reply up to its first NUL, or what HTTP gave for an empty one, in `id` |
| `Discovery.Finder.DiscoverDevices` | src/vxi11.c:513-528 | the loop leaves exactly the specified log of links and callbacks |
| `Discovery.LinksArePaired` | src/vxi11.c:354-372 | over any responses at most one link is open, it is closed before the next opens or a callback runs, and none is left open |
| `Discovery.EachLinkClosedOnce` | src/vxi11.c:441-447 | each link that was opened is closed exactly once, and no other |
| `Discovery.CallbacksInArrivalOrder` | src/vxi11.c:513-528 | a non-null callback fires once for each response before the loop ends whose lookup does not fail, in arrival order, with its address and with the text of its reply; a null one never |

## Left out

- mDNS discovery (src/avahi.c, src/bonjour.c, src/cygwin_dnssd.c, src/mdns.c): callback plumbing over foreign libraries.
- `tcp_connect`, `tcp_disconnect` and the socket set-up and broadcast of `discover_devices`: system-call sequencing; `ApiThreads` lets the TCP backend's connect return at any time.
- The HTTP/XML identification fallback (src/vxi11.c:386-439): its outcome is a parameter; stderr redirection is not modelled.
- RPC transport internals, the portmapper, the 25-second RPC timeout and the version of a program: an RPC is one step that succeeds or fails.
- `rpc_GETPORT_msg`, `vxi11_send`, `vxi11_lock`, `vxi11_unlock`, the discover-type switches and interface enumeration: single-branch facts.
- XDR_FREE, `svc_freeargs`, and server registration in `main` of src/vxi11core_svc.c: memory and process plumbing.
- Failure to create the waiter thread, where `tmp` is unset (src/vxi11.c:114-122): creation is assumed to succeed.
- Failure of malloc, in `lxi_connect` and in the worker.
- Bytes written outside the caller's buffer, and bytes of a reply deposited before its RPC fails.
- The requests `vxi11_receive` sends: conforming replies are bounded by what the buffer has left, the size each read asks for.
- Handlers are functions of procedure and argument; a handler with state is a different function at each call.
- SessionThreads.StepKeepsInv: assumes that a disconnect that finds its handle live is called by the handle's owner, of which there is one at a time and who may hand it over, and that no call finds a nonzero byte one past the array; what happens otherwise is `Sessions.LateDisconnect` and `Sessions.Stray`.
- TcpTransfer.TcpReceive: says nothing of the buffer once a call has written past it.
