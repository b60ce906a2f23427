# Verified models of the CSE lab systems

This project models the stateful parts of the computer systems engineering labs in Dafny and proves what they are
for: two transaction servers, the at-most-once RPC library, the caching lock protocol, the write-back extent cache,
the block and inode layer, write-ahead-log recovery, the RPC wire format and the directory format. Each part has a
model on values, with theorems over every run, and the source's own imperative form: classes whose methods update
their fields, with the source's loops, proved to do exactly what the model's functions say. What a client can see
is stated a second time without the model's functions, by the answers, actions or commands so far, so that the
theorems say what each operation does and not only what it keeps.

## How the parts fit together

**Transactions** (`Transactions.dfy`). Requests, answers and the trace that clients see; what a transaction did
(`OpsOf`), what a serial run would show it (`Legal`, `Replay`), and serializability in commit order. Keys are
hashed to slots; two keys with the same slot are the same datum, as in the program.

**Optimistic server** (`OccModel.dfy`, `OccAnswers.dfy`, `OccServer.dfy`). One step per request. `YdbServerOcc` has
the nested loops that mark other caches invalid; every method equals the model's step. `Expected` is every answer
as a function of the answers before it.

**Two-phase locking** (`Graphs.dfy`, `TwoPhaseModel.dfy`, `TwoPhaseLocking.dfy`, `TwoPhaseAnswers.dfy`,
`TwoPhaseServer.dfy`). A get, set or del is split where it unlocks, waits in the lock server and locks again, so
that runs interleave there. The graph has an edge from a transaction to a slot it waits for and from a slot to the
transaction that holds it. `CyQuery` runs Kahn's queue loop over a copy of the stored degrees and is proved to find
exactly the cycles. `TwoPhaseAnswers` says what each section answers, publishes, drops and unlocks.

**RPC** (`RpcWindows.dfy`, `RpcProtocol.dfy`, `RpcHistory.dfy`, `RpcEndpoints.dfy`). Whatever was put on the wire
may arrive at any later time, any number of times, or never. The client's finished calls, the prefix it stamps on
requests, and the server's sorted reply window are one protocol. A call is patient if it does not time out and
binds come one at a time. The comment on `checkduplicate_and_update` says that replies up to and including
`xid_rep` are dropped; the code keeps the one equal to `xid_rep`, and so does the model. A finding: two overlapping
binds make the server forget a request it never ran (`OverlappingBindsForget`); `ForgottenExactly` says when this
happens. `RpcHistory` has the calls as their callers asked for them (`Asked`), the reply that each is answered with
(`FirstReply`) and how it ended (`Ended`), all by the actions alone.

**Caching locks** (`LockCacheModel.dfy`, `LockCacheInvariant.dfy`, `LockCacheProtocol.dfy`,
`LockCacheProgress.dfy`, `LockCacheEndpoints.dfy`). Every point where a mutex is given up is a step, so a retry may
overtake the answer to an acquire, and a revoke may arrive in any client state. `LockCacheProgress` follows a grant
to the thread that holds the lock, and shows that every acquire can still succeed, whatever has happened so far.

**Extent cache** (`ExtentCacheModel.dfy`, `ExtentCacheCoherence.dfy`, `ExtentCacheHistory.dfy`,
`ExtentCacheEndpoints.dfy`). One extent with its operations serialised refines a plain file, and what is cached
where follows from the operations. The server calls the writer while it serves a reader, and tells clients that
they are stale; the two classes call each other in the same way. A finding: a client that reads an uncached file
and then writes it keeps type zero for it while it is the writer (`GetThenPutLosesType`). What the writer gets is
the type it was last told, which survives a removal and a new creation by others; `TypeIsRightExactly` says when
that is the right one.

**Inodes** (`Blocks.dfy`, `InodeModel.dfy`, `InodeManager.dfy`). Blocks, bitmap, direct numbers and one indirect
block refine a map from inode numbers to bytes. `free_block` flips the bitmap bit instead of clearing it; a fresh
file "frees" block 0 on its first write, and for data blocks the bitmap is right all the same. A rewritten or
removed file of more than 100 blocks loses its indirect block: `leaked` collects exactly these.

**Write-ahead log** (`WalModel.dfy`, `WalRecovery.dfy`, `WalSessions.dfy`, `WalSystem.dfy`, `WalCommands.dfy`). Log
writers, disk, crash and recovery in both modes, over any number of sessions. With undo logging it is enough that
actions which update the same account do not overlap up to their outcomes. With redo logging this is not enough
(`LateEndGoesWrong`): an action that committed but has not ended is written again over a later one that has. After
a restart the program copies the disk to a local name, so memory starts empty; the model does the same, and appends
the closing records of the recovery. An account that exists on disk can therefore be created again, and undoing
that deletes it: `CreateAgain` drives the program there, and `RestartLosesAccount` says what it leaves. The exact
condition is proved for both modes and every history: all recoveries are right exactly if in no session an update
follows one of a loser, nor a loser creates an account that is on disk (`AllRightExactly`), and the disk is right
after the last recovery exactly if this holds, account by account, in the last session that touched it
(`SessionsRecoverExactly`): a later session can repair or keep what an earlier recovery spoiled. `WalCommands` has
which commands are accepted and what every balance is, by the commands accepted before.

**Wire format** (`Marshalling.dfy`, `WireFormat.dfy`, `MarshallBuffers.dfy`). Numbers of every size, strings,
nested vectors and maps, and both headers, written into a growing buffer and read back; and where each byte stands.

**Directories** (`DirectoryFormat.dfy`, `DirectoryClient.dfy`). The text `name,inum:` of each entry, parsed by
searching for commas and colons.

`Options.dfy` and `Sets.dfy` are shared helpers. `dafny verify --resource-limit 2000000 --verification-time-limit 0
dfyconfig.toml` checks everything.

## Model

| member | source | states |
|---|---|---|
| Transactions.SDBMHash | lab-cse/lab3/ydb_server_2pl.cc:5-11 | the hash loop stops at the first NUL and yields the key's slot, in wrapping 32-bit arithmetic |
| Transactions.SlotIsTenBitPolynomial | lab-cse/lab3/ydb_server_2pl.cc:5-11 | the shift by sixteen never matters: a slot is a polynomial hash modulo 1024 with multiplier 63, plus two |
| Transactions.HashModulo | lab-cse/lab3/ydb_server_occ.cc:13-19 | wrapping at 32 bits does not change the low ten bits of the hash |
| Transactions.SerialExtend | lab-cse/lab3/ydb_server_occ.cc:48-51 | a commit whose operations are legal on the current store extends a serializable trace by one transaction |
| Transactions.StableReads | lab-cse/lab3/ydb_server_occ.cc:87-92 | in a stable transaction a later read of a slot returns what was last read or written there |
| OccModel.CommittedRunIsSerial | lab-cse/lab3/ydb_server_occ.cc:21-110 | every run of requests equals the serial execution of its committed transactions in commit order, reads and final store included |
| OccModel.AbortsExactlyWhenOverwritten | lab-cse/lab3/ydb_server_occ.cc:30-63 | a commit is answered ABORT if and only if another transaction committed a write to a slot after this one first touched it |
| OccModel.EveryTransactionIsStable | lab-cse/lab3/ydb_server_occ.cc:79-110 | reads are repeatable and see own writes, also in transactions that will be aborted |
| OccModel.FirstToCommitSucceeds | lab-cse/lab3/ydb_server_occ.cc:30-63 | a transaction during which nobody else committed is not aborted |
| OccModel.RunKeepsInv | lab-cse/lab3/ydb_server_occ.cc:21-110 | in every run a valid cache is up to date with the store, and is valid exactly if nothing it touched was overwritten |
| OccAnswers.AnswersExactly | lab-cse/lab3/ydb_server_occ.cc:21-115 | every answer in every run is the one its trace calls for: a counted number, a refusal for a transaction that is not active, the value last seen or written, otherwise the committed one, ABORT exactly when overwritten |
| OccAnswers.ActiveExactly | lab-cse/lab3/ydb_server_occ.cc:21-77 | the server has a cache for exactly the transactions begun and not ended, by the trace |
| OccAnswers.BeginIsFresh | lab-cse/lab3/ydb_server_occ.cc:24-25 | begin answers a number that was not active and that no begin answered before; it is active afterwards, with no operations, and the store is as it was |
| OccAnswers.StrangerIsRefused | lab-cse/lab3/ydb_server_occ.cc:33-36 | a request for a transaction that is not active is answered TRANSIDINV and changes nothing |
| OccAnswers.EndingExactly | lab-cse/lab3/ydb_server_occ.cc:30-77 | a commit or an abort ends the transaction; its writes reach the store exactly if it is a commit and nothing was overwritten |
| OccServer.YdbServerOcc.TransactionBegin | lab-cse/lab3/ydb_server_occ.cc:21-28 | an empty valid cache under the number that is answered: the model's step on the whole state, and that number is fresh by `OccAnswers.BeginIsFresh` |
| OccServer.YdbServerOcc.TransactionCommit | lab-cse/lab3/ydb_server_occ.cc:30-63 | the whole commit with its loops is the model's step, answer included |
| OccServer.YdbServerOcc.InvalidateOthers | lab-cse/lab3/ydb_server_occ.cc:39-47 | the two nested loops make invalid exactly the other caches that share a slot with the write set |
| OccServer.YdbServerOcc.InvalidateSlot | lab-cse/lab3/ydb_server_occ.cc:41-46 | the inner loop, for one written slot |
| OccServer.YdbServerOcc.PutWrites | lab-cse/lab3/ydb_server_occ.cc:48-51 | exactly the written slots reach the store, with the buffered values |
| OccServer.YdbServerOcc.TransactionAbort | lab-cse/lab3/ydb_server_occ.cc:65-77 | the cache is dropped and nothing else changes: the model's step, after which the number is refused by `OccAnswers.StrangerIsRefused` |
| OccServer.YdbServerOcc.Get | lab-cse/lab3/ydb_server_occ.cc:79-95 | the buffered value, or the store's value which is then buffered |
| OccServer.YdbServerOcc.Set | lab-cse/lab3/ydb_server_occ.cc:97-110 | the value is buffered and the slot noted as written |
| OccServer.YdbServerOcc.Del | lab-cse/lab3/ydb_server_occ.cc:112-115 | deleting is writing the empty string |
| Graphs.RankedIsAcyclic | lab-cse/lab3/ydb_server_2pl.cc:29-40 | a graph whose nodes can be taken in some order has no cycle |
| Graphs.PredecessorsCycle | lab-cse/lab3/ydb_server_2pl.cc:38-39 | a non-empty set in which every node has a predecessor in the set contains a cycle |
| Graphs.EdgeToSink | lab-cse/lab3/ydb_server_2pl.cc:126-129 | an edge into a node without successors closes no cycle |
| TwoPhaseLocking.CommittedRunIsSerial | lab-cse/lab3/ydb_server_2pl.cc:52-167 | over every interleaving, committed reads and the final store equal a serial run in commit order; aborted transactions contribute nothing |
| TwoPhaseLocking.ActiveReadsAreSerial | lab-cse/lab3/ydb_server_2pl.cc:107-136 | what any active transaction has read is what a serial run up to now would show it, and its reads are repeatable |
| TwoPhaseLocking.GraphIsExactAndAcyclic | lab-cse/lab3/ydb_server_2pl.cc:107-167 | after every atomic section the wait graph is acyclic and the stored degrees are the true in-degrees |
| TwoPhaseLocking.SomeTransactionCanProceed | lab-cse/lab3/ydb_server_2pl.cc:115-129 | while a transaction is active, some transaction can take a step: no deadlock, as long as blocked operations leave a thread for the next request |
| TwoPhaseLocking.AllBlockedIsCycle | lab-cse/lab3/lock_server.cc:24-38 | if every active transaction were blocked on a lock, the wait graph would have a cycle |
| TwoPhaseLocking.AbortsExactlyOnDeadlock | lab-cse/lab3/ydb_server_2pl.cc:115-122 | ABORT is given exactly to a request for a slot whose holder waits, directly or through others, for the requester; any other request blocks |
| TwoPhaseLocking.WaitIsReal | lab-cse/lab3/lock_server.cc:29-36 | a transaction counted as waiting is really stopped in the lock server on a held lock |
| TwoPhaseLocking.RecordGraph | lab-cse/lab3/ydb_server_2pl.cc:126-129 | recording a grant makes the transaction a sink, so the graph stays acyclic |
| TwoPhaseLocking.ForgetInv | lab-cse/lab3/ydb_server_2pl.cc:43-58 | ending or aborting a transaction removes its node, its degrees and its locks, and keeps the invariant |
| TwoPhaseLocking.NextInv | lab-cse/lab3/ydb_server_2pl.cc:60-172 | every atomic section keeps graph, degrees, locks and copies consistent |
| TwoPhaseLocking.ReachedInv | lab-cse/lab3/ydb_server_2pl.cc:60-172 | the structural and the trace invariant hold in every reachable state |
| TwoPhaseAnswers.ReachedKnowsActive | lab-cse/lab3/ydb_server_2pl.cc:60-105 | in every reachable state the server keeps something about exactly the transactions begun and not ended, by the trace |
| TwoPhaseAnswers.BeginIsFresh | lab-cse/lab3/ydb_server_2pl.cc:60-70 | begin answers a number that was not active and that no begin answered before; it is active afterwards, with no operations, and store and locks are as they were |
| TwoPhaseAnswers.CommitPublishes | lab-cse/lab3/ydb_server_2pl.cc:72-89 | a commit of an active transaction with nothing outstanding is answered OK, the store gets exactly its writes, it is no longer active, and exactly the slots it touched are unlocked |
| TwoPhaseAnswers.AbortDropsAll | lab-cse/lab3/ydb_server_2pl.cc:91-105 | an abort of such a transaction is answered OK and leaves the store; the transaction and exactly its locks are gone |
| TwoPhaseAnswers.StrangerIsRefused | lab-cse/lab3/ydb_server_2pl.cc:72-113 | any request for a transaction that is not active is answered TRANSIDINV and changes nothing |
| TwoPhaseAnswers.AccessExactly | lab-cse/lab3/ydb_server_2pl.cc:107-167 | every get, set and del: refused, answered from what the transaction saw or wrote, aborted with its locks gone exactly if waiting would close a cycle, or waiting |
| TwoPhaseAnswers.GrantLocksOne | lab-cse/lab3/lock_server.cc:24-38 | a granted lock was free, exactly its slot becomes locked, and nobody else's wait changes |
| TwoPhaseAnswers.GrantIsCarriedOut | lab-cse/lab3/ydb_server_2pl.cc:125-136 | a granted operation is carried out as it was asked for: a get answers the store's value, and the slot stays locked |
| TwoPhaseAnswers.LockedExactly | lab-cse/lab3/ydb_server_2pl.cc:52-58 | a slot is locked exactly if an active transaction touched it or was just given it |
| TwoPhaseAnswers.EverybodyCanFinish | lab-cse/lab3/ydb_server_2pl.cc:60-167 | from every reachable state, letting waiting operations go on and committing is enough to finish all transactions |
| TwoPhaseServer.YdbServer2pl.CyQuery | lab-cse/lab3/ydb_server_2pl.cc:24-41 | Kahn's loop terminates and answers true if and only if the wait graph has a directed cycle |
| TwoPhaseServer.YdbServer2pl.TakeAll | lab-cse/lab3/ydb_server_2pl.cc:29-37 | the queue loop ends, and takes the nodes in an order that puts every predecessor first |
| TwoPhaseServer.YdbServer2pl.TakeHead | lab-cse/lab3/ydb_server_2pl.cc:30-36 | one round of the queue loop keeps the degrees counting the predecessors not yet taken |
| TwoPhaseServer.KahnEnd | lab-cse/lab3/ydb_server_2pl.cc:38-40 | a non-zero degree is left exactly if there is a cycle |
| TwoPhaseServer.Relax | lab-cse/lab3/ydb_server_2pl.cc:32-36 | lowering the successors' degrees and queueing those at zero keeps the queue loop's invariant |
| TwoPhaseServer.ZeroNodes | lab-cse/lab3/ydb_server_2pl.cc:27-28 | the queue starts with exactly the nodes of degree zero, each once |
| TwoPhaseServer.AnyLeft | lab-cse/lab3/ydb_server_2pl.cc:38-40 | finds a node with a non-zero degree, or none is left |
| TwoPhaseServer.YdbServer2pl.DeleteNode | lab-cse/lab3/ydb_server_2pl.cc:43-50 | all edges at the node go, and the degrees of its successors go down by one |
| TwoPhaseServer.YdbServer2pl.EraseTarget | lab-cse/lab3/ydb_server_2pl.cc:44-45 | the node is erased from every adjacency entry |
| TwoPhaseServer.YdbServer2pl.DeadlockAbort | lab-cse/lab3/ydb_server_2pl.cc:52-58 | locks released, node deleted, copies dropped, store untouched |
| TwoPhaseServer.YdbServer2pl.TransactionBegin | lab-cse/lab3/ydb_server_2pl.cc:60-70 | a fresh transaction with an isolated node: the model's section on the whole state, whose number is fresh by `TwoPhaseAnswers.BeginIsFresh` |
| TwoPhaseServer.YdbServer2pl.TransactionCommit | lab-cse/lab3/ydb_server_2pl.cc:72-89 | written slots reach the store, then the transaction is forgotten as on abort: the model's section on the whole state, which by `TwoPhaseAnswers.CommitPublishes` answers OK and publishes exactly the writes |
| TwoPhaseServer.YdbServer2pl.TransactionAbort | lab-cse/lab3/ydb_server_2pl.cc:91-105 | the transaction is forgotten, the store is untouched: the model's section, described by `TwoPhaseAnswers.AbortDropsAll` |
| TwoPhaseServer.YdbServer2pl.WaitOrAbort | lab-cse/lab3/ydb_server_2pl.cc:115-122 | the wait edge is added; if that closes a cycle the transaction is aborted, otherwise it waits |
| TwoPhaseServer.YdbServer2pl.Get | lab-cse/lab3/ydb_server_2pl.cc:107-136 | the first section of a get: own copy, abort, or wait for the lock |
| TwoPhaseServer.YdbServer2pl.Set | lab-cse/lab3/ydb_server_2pl.cc:138-167 | the first section of a set |
| TwoPhaseServer.YdbServer2pl.Del | lab-cse/lab3/ydb_server_2pl.cc:169-172 | deleting is writing the empty string |
| TwoPhaseServer.YdbServer2pl.AcquireLock | lab-cse/lab3/ydb_server_2pl.cc:123-124 | the wait ends exactly when the lock is free, and takes it |
| TwoPhaseServer.YdbServer2pl.WaitBecomesHold | lab-cse/lab3/ydb_server_2pl.cc:126-129 | the edge is turned round and both degrees are moved |
| TwoPhaseServer.YdbServer2pl.AfterAcquire | lab-cse/lab3/ydb_server_2pl.cc:125-135 | the second section: the granted operation reads the store or writes its copy |
| TwoPhaseServer.LockServer.TryAcquire | lab-cse/lab3/lock_server.cc:29-36 | a pass under the mutex takes the lock exactly if nobody has it |
| TwoPhaseServer.LockServer.Release | lab-cse/lab3/lock_server.cc:40-50 | the lock is free afterwards |
| RpcWindows.FrontIsContiguousPrefix | lab-cse/lab3/rpc/rpc.cc:387-411 | after any reports the front is the largest n with 1..n all reported, and the entries above it are exactly the reported xids above it, in order; repeats do no harm |
| RpcWindows.ReportAdds | lab-cse/lab3/rpc/rpc.cc:387-411 | one report adds exactly that xid and never lowers the front |
| RpcWindows.CheckNew | lab-cse/lab3/rpc/rpc.cc:686-718 | a new request with a stamp below its number stays in the window, which keeps sorted and loses exactly the entries below the stamp; nothing expired comes back |
| RpcWindows.CheckOld | lab-cse/lab3/rpc/rpc.cc:669-687 | INPROGRESS, DONE and FORGOTTEN change nothing, and mean remembered without reply, remembered with that reply, expired |
| RpcWindows.RememberKeeps | lab-cse/lab3/rpc/rpc.cc:689-702 | insertion keeps the window sorted and adds one entry |
| RpcWindows.AddReplyKeeps | lab-cse/lab3/rpc/rpc.cc:726-743 | the reply is stored with its own xid and no other entry changes |
| RpcProtocol.HandlerRunsAtMostOnce | lab-cse/lab3/rpc/rpc.cc:501-743 | under any loss, duplication and reordering the handler runs at most once for each xid |
| RpcProtocol.UnacknowledgedReplyIsKept | lab-cse/lab3/rpc/rpc.cc:662-719 | a retransmission of an outstanding request that was received gets INPROGRESS, or DONE with the stored bytes |
| RpcProtocol.FreshRequestIsNeverForgotten | lab-cse/lab3/rpc/rpc.cc:195-215 | if no call times out and binds do not overlap, a request not yet received is taken as NEW, and completed calls return results |
| RpcProtocol.OverlappingBindsForget | lab-cse/lab3/rpc/rpc.cc:198-215 | two overlapping binds, the second arriving first, make the first be FORGOTTEN although it never ran and nothing timed out |
| RpcProtocol.ForgottenExactly | lab-cse/lab3/rpc/rpc.cc:686-712 | a request that did not run is FORGOTTEN exactly if something ran and every earlier call that ran was acknowledged by a request that ran; otherwise NEW |
| RpcProtocol.RunInv | lab-cse/lab3/rpc/rpc.cc:188-743 | client, window and wire invariants hold after every run |
| RpcHistory.ClientFollows | lab-cse/lab3/rpc/rpc.cc:188-411 | in every run everything the client keeps follows from the actions: the next xid, the reported calls, what is on the wire, who waits and who was answered with what |
| RpcHistory.SentAsAsked | lab-cse/lab3/rpc/rpc.cc:208-214 | what is on the wire for the n-th call is what its caller asked for, arguments and bind flag, stamped with the front of the window when it was made |
| RpcHistory.ReturnsFirstReply | lab-cse/lab3/rpc/rpc.cc:351-385 | a call has returned exactly if its caller woke up, with the first reply delivered before that, or a timeout if there was none |
| RpcHistory.DeliveredIsReturned | lab-cse/lab3/rpc/rpc.cc:367-384 | a reply delivered to a waiting call is what the call returns when its caller wakes up |
| RpcHistory.WhoMayCall | lab-cse/lab3/rpc/rpc.cc:147-206 | which calls are accepted, and when binding is over, by the actions: before a bind has returned a result only bind may be called, and afterwards everything else |
| RpcHistory.RequestExactly | lab-cse/lab3/rpc/rpc.cc:581-643 | a request that arrives is run with what its caller asked for, or repeats the stored reply on the wire, or puts nothing there while its handler runs, or is refused; and exactly when |
| RpcHistory.HandlerExactly | lab-cse/lab3/rpc/rpc.cc:594-626 | a handler's return puts its reply on the wire once and is recorded for its run |
| RpcHistory.ReturnedWhatItsRunProduced | lab-cse/lab3/rpc/rpc.cc:188-385 | a call that did not time out returned what its single run, with the arguments its caller gave, produced, or the at-most-once failure and then it never ran |
| RpcHistory.CallCanReturn | lab-cse/lab3/rpc/rpc.cc:188-385 | whatever the network did so far, a waiting call can still return without a timeout, and with any result of the handler if its request can be taken as new |
| RpcEndpoints.Rpcc.CallStart | lab-cse/lab3/rpc/rpc.cc:195-215 | the next xid, the front of the window as stamp, and the caller's arguments go into the call that is sent; refused when unbound or bound twice; that this is what was asked for is `RpcHistory.SentAsAsked` |
| RpcEndpoints.Rpcc.GotPdu | lab-cse/lab3/rpc/rpc.cc:351-385 | a reply is reported, and the first one for a waiting call answers it |
| RpcEndpoints.Rpcc.CallFinish | lab-cse/lab3/rpc/rpc.cc:286-325 | the call is removed and reported, and returns its answer or a timeout |
| RpcEndpoints.Rpcc.UpdateXidRep | lab-cse/lab3/rpc/rpc.cc:388-411 | the list loops with their jump compute the report of one xid |
| RpcEndpoints.Insertion | lab-cse/lab3/rpc/rpc.cc:397-403 | where the xid goes in the sorted list |
| RpcEndpoints.Rpcs.Classify | lab-cse/lab3/rpc/rpc.cc:555-586 | nonce zero is always NEW; any other nonce is decided by its own window and touches no other |
| RpcEndpoints.Rpcs.Dispatch | lab-cse/lab3/rpc/rpc.cc:589-643 | by its status a request is run with its own arguments, answered at once, or left alone, as the model says; nonce zero is always run |
| RpcEndpoints.Rpcs.HandlerReturned | lab-cse/lab3/rpc/rpc.cc:605-626 | the reply is stored unless the nonce is zero, and sent |
| RpcEndpoints.Rpcs.CheckDuplicateAndUpdate | lab-cse/lab3/rpc/rpc.cc:662-719 | the three list loops decide and update as the model says |
| RpcEndpoints.Rpcs.AddReply | lab-cse/lab3/rpc/rpc.cc:726-743 | the loop stores the reply at its xid |
| LockCacheProtocol.OneClientHasTheLock | lab-cse/lab2/lock_server_cache.cc:19-70 | a client whose lock is FREE or LOCKED is at the front of the queue, and nobody is queued twice |
| LockCacheProtocol.OneThreadHolds | lab-cse/lab2/lock_client_cache.cc:32-98 | at most one thread of all clients holds the lock |
| LockCacheProtocol.NoHandOffIsLost | lab-cse/lab2/lock_server_cache.cc:34-44 | behind every client with a successor in the queue the revoke is either in flight or being handled, or recorded in its flag, and never both |
| LockCacheProtocol.OneRevokePerStay | lab-cse/lab2/lock_client_cache.cc:100-123 | in every run, between two revokes that arrive at the same client the server has popped that client: one revoke for each stay in the queue |
| LockCacheProtocol.StaysRevoked | lab-cse/lab2/lock_client_cache.cc:85-122 | once a client was told to give the lock back, its flag or its handler's release says so until it leaves the queue |
| LockCacheProtocol.OneRevokeAtATime | lab-cse/lab2/lock_server_cache.cc:34-44 | a revoke in flight comes from the client directly behind, is the only one, and finds a client not revoked yet |
| LockCacheProtocol.RetryFindsItsClient | lab-cse/lab2/lock_client_cache.cc:125-144 | a retry goes to the front client, finds it ACQUIRING and makes it LOCKED |
| LockCacheProtocol.ReleasePopsItsClient | lab-cse/lab2/lock_server_cache.cc:48-70 | a release that arrives pops the client that sent it, from a queue that is not empty |
| LockCacheProtocol.FrontIsGranted | lab-cse/lab2/lock_server_cache.cc:60-66 | a front client still ACQUIRING has its grant on the way |
| LockCacheProtocol.NextKeeps | lab-cse/lab2/lock_client_cache.cc:32-144 | every step between two mutex release points keeps the invariant, and the server never pops an empty queue |
| LockCacheProtocol.ReachedGood | lab-cse/lab2/lock_client_cache.cc:32-144 | the invariant holds in every reachable state of any number of clients and threads |
| LockCacheProgress.GrantedThreadHolds | lab-cse/lab2/lock_client_cache.cc:51-61 | in every reached state a thread answered OK, and one answered RETRY whose client is LOCKED, holds the lock after its own next step |
| LockCacheProgress.LockedHasHolder | lab-cse/lab2/lock_client_cache.cc:46-71 | a LOCKED client has a thread that holds the lock, or does after its own next step, or after the handler call it waits for has returned and one step more |
| LockCacheProgress.ReleaseKeepsLock | lab-cse/lab2/lock_client_cache.cc:79-97 | a release goes to the server exactly if a revoke has arrived, and none has while nobody else is queued; otherwise the next acquire at this client succeeds without a call |
| LockCacheProgress.SomeoneGoesOn | lab-cse/lab2/lock_client_cache.cc:32-144 | while any thread is not outside, some thread can take a step that brings it nearer to the end of its release |
| LockCacheProgress.EverybodyCanFinish | lab-cse/lab2/lock_client_cache.cc:32-144 | from every reached state there is a way on, without new acquires, to where every thread has acquired and released |
| LockCacheProgress.EveryAcquireCanSucceed | lab-cse/lab2/lock_client_cache.cc:32-71 | however threads and messages interleaved so far, every thread that is acquiring can still come to hold the lock |
| LockCacheEndpoints.LockClientCache.AcquireSection | lab-cse/lab2/lock_client_cache.cc:39-71 | one pass of acquire under the mutex: ask the server, take, or wait |
| LockCacheEndpoints.LockClientCache.AcquireReturned | lab-cse/lab2/lock_client_cache.cc:50-61 | what follows the server's answer: the model's step; that a granted thread then holds the lock is `LockCacheProgress.GrantedThreadHolds` |
| LockCacheEndpoints.LockClientCache.ReleaseSection | lab-cse/lab2/lock_client_cache.cc:79-98 | release hands the lock back if revoked, and frees it here otherwise |
| LockCacheEndpoints.LockClientCache.ReleaseReturned | lab-cse/lab2/lock_client_cache.cc:85-91 | state and flag are cleared after the release call |
| LockCacheEndpoints.LockClientCache.RevokeHandler | lab-cse/lab2/lock_client_cache.cc:107-122 | a free lock is released at once, any other is flagged |
| LockCacheEndpoints.LockClientCache.RevokeReleased | lab-cse/lab2/lock_client_cache.cc:113-118 | the state after the handler's release call |
| LockCacheEndpoints.LockClientCache.RetryHandler | lab-cse/lab2/lock_client_cache.cc:132-143 | only an ACQUIRING lock becomes LOCKED |
| LockCacheEndpoints.LockServerCache.Acquire | lab-cse/lab2/lock_server_cache.cc:24-46 | the caller is queued; if there was a queue its last client is to be revoked |
| LockCacheEndpoints.LockServerCache.Release | lab-cse/lab2/lock_server_cache.cc:54-69 | the front is popped; the next client, if any, is to be told |
| ExtentCacheCoherence.ReadsLastPut | lab-cse/lab4/extent_client.cc:46-83 | any client's get returns the last put by any client, empty since the creation, and getattr returns its length |
| ExtentCacheCoherence.AlwaysCoherent | lab-cse/lab4/extent_server.cc:31-117 | one registered writer is clean and all others are stale, or there is no writer and every clean copy agrees with the server |
| ExtentCacheCoherence.AllowedRunsOn | lab-cse/lab4/extent_server.cc:114-117 | the server never asks a writer that has nothing cached |
| ExtentCacheCoherence.TypeIsRightIfAsked | lab-cse/lab4/extent_client.cc:66-83 | the cached type is right for a client that created the extent or asked for its attributes, and for every client that is not the writer |
| ExtentCacheCoherence.TypeAnswered | lab-cse/lab4/extent_client.cc:66-83 | in every run the writer gets the type it was last told, everybody else the type of the extent; who is the writer, and what it was told, follow from the operations alone |
| ExtentCacheCoherence.TypeIsRightExactly | lab-cse/lab4/extent_client.cc:48-54 | in every run, removals and new creations included, the type is right exactly if the one last told is the present one or the client is not the writer |
| ExtentCacheCoherence.GetThenPutLosesType | lab-cse/lab4/extent_client.cc:46-101 | get and then put on an uncached file leaves its writer with type zero |
| ExtentCacheHistory.StoredExactly | lab-cse/lab4/extent_client.cc:37-120 | in every run, by the operations alone: whether the extent exists, who has an item, and whose content and attributes are clean |
| ExtentCacheHistory.AllowedExactly | lab-cse/lab4/extent_client.cc:37-111 | which operation can come next, by the operations before it; and then it can be carried out |
| ExtentCacheHistory.StaysLocal | lab-cse/lab4/extent_client.cc:62-101 | a read of what is clean changes nothing anywhere, and a put by the writer nothing but its own item |
| ExtentCacheHistory.FirstPutIsSent | lab-cse/lab4/extent_client.cc:90-93 | a put by anybody but the writer is at the server at once and makes every other item stale |
| ExtentCacheEndpoints.ExtentServer.RefreshClient | lab-cse/lab4/extent_server.cc:103-112 | the loop tells every other known client, and a writer among them stops being the writer |
| ExtentCacheEndpoints.ExtentServer.RequireClient | lab-cse/lab4/extent_server.cc:114-117 | the writer's data reaches the server through the nested put |
| ExtentCacheEndpoints.ExtentServer.Create | lab-cse/lab4/extent_server.cc:20-29 | an empty extent known to its creator |
| ExtentCacheEndpoints.ExtentServer.Put | lab-cse/lab4/extent_server.cc:31-43 | the content is stored, the caller becomes the writer, the others are told |
| ExtentCacheEndpoints.ExtentServer.Get | lab-cse/lab4/extent_server.cc:45-69 | the writer's data is fetched, the reader noted, the writing ended, and the content returned |
| ExtentCacheEndpoints.ExtentServer.GetAttr | lab-cse/lab4/extent_server.cc:71-89 | the same for type and size |
| ExtentCacheEndpoints.ExtentServer.Remove | lab-cse/lab4/extent_server.cc:91-101 | the extent is dead and the others are told |
| ExtentCacheEndpoints.ExtentClient.RefreshHandler | lab-cse/lab4/extent_client.cc:113-120 | a cached item becomes stale and its writing ends |
| ExtentCacheEndpoints.ExtentClient.RequireHandler | lab-cse/lab4/extent_client.cc:122-131 | the writer sends its data and is clean afterwards |
| ExtentCacheEndpoints.ExtentClient.Create | lab-cse/lab4/extent_client.cc:37-44 | the creator has a clean empty item of the right type |
| ExtentCacheEndpoints.ExtentClient.Get | lab-cse/lab4/extent_client.cc:46-64 | from the cache if clean, otherwise through the server; other extents are left alone everywhere |
| ExtentCacheEndpoints.ExtentClient.GetAttr | lab-cse/lab4/extent_client.cc:66-83 | the same for attributes |
| ExtentCacheEndpoints.ExtentClient.Put | lab-cse/lab4/extent_client.cc:85-101 | the first put after a refresh goes to the server, later ones stay in the cache |
| ExtentCacheEndpoints.ExtentClient.Remove | lab-cse/lab4/extent_client.cc:103-111 | the extent is removed and the item erased |
| Blocks.Regions | lab-cse/lab4/inode_manager.h:57-70 | bitmap, inode table and data blocks do not overlap |
| Blocks.FlippedBit | lab-cse/lab4/inode_manager.cc:66-66 | exclusive-or with a shifted one flips that bit and no other |
| Blocks.WithBitBit | lab-cse/lab4/inode_manager.cc:45-45 | or with a shifted one sets that bit and no other |
| Blocks.SetKeepsBitmap | lab-cse/lab4/inode_manager.cc:41-46 | marking a block keeps bitmap and table in agreement |
| Blocks.ToggleKeepsBitmap | lab-cse/lab4/inode_manager.cc:62-67 | flipping a bit keeps bitmap and table in agreement on data blocks exactly if the block is in use or is no data block, such as block 0 |
| Blocks.NumberRoundTrip | lab-cse/lab4/inode_manager.cc:222-224 | four bytes written low byte first are read as the same number |
| InodeModel.FileWritten | lab-cse/lab4/inode_manager.cc:274-312 | when the pieces are in new blocks whose numbers the inode keeps, the file holds the buffer and its blocks are its own |
| InodeModel.PiecesJoin | lab-cse/lab4/inode_manager.cc:211-231 | blocks that hold consecutive pieces of a buffer, joined and cut to its length, are the buffer |
| InodeModel.Replaced | lab-cse/lab4/inode_manager.cc:240-319 | replacing one file by blocks that were free once its own were given back keeps all files sound, disjoint and accounted for, and changes no other file |
| InodeModel.Created | lab-cse/lab4/inode_manager.cc:119-129 | a new inode is an empty file and disturbs nothing |
| InodeModel.BitmapIsUnion | lab-cse/lab4/inode_manager.cc:29-69 | a data block is marked exactly if one live file has it or it was leaked, never two files and never both |
| InodeManager.BlockManager.AllocBlock | lab-cse/lab4/inode_manager.cc:29-51 | the first free data block, or 0 exactly if none is free; bitmap and table agree, data is unchanged |
| InodeManager.BlockManager.FreeBlock | lab-cse/lab4/inode_manager.cc:53-69 | the block leaves the table and its bit is flipped, whatever it was; bitmap and table still agree exactly if it was in use or is no data block; data is unchanged |
| InodeManager.FileSystem.constructor | lab-cse/lab4/inode_manager.cc:98-107 | a new file system has the empty root directory as inode 1 and nothing else |
| InodeManager.FileSystem.FreeFile | lab-cse/lab4/inode_manager.cc:252-272 | the loops free exactly the data blocks of the file |
| InodeManager.FileSystem.FreeIndirect | lab-cse/lab4/inode_manager.cc:261-270 | the part of them whose numbers are in the indirect block |
| InodeManager.FileSystem.WriteBlocks | lab-cse/lab4/inode_manager.cc:274-312 | the loops take blocks that were free, and the inode then holds the buffer |
| InodeManager.FileSystem.WriteIndirect | lab-cse/lab4/inode_manager.cc:291-311 | the blocks past the direct ones and their numbers |
| InodeManager.FileSystem.MakeBlock | lab-cse/lab4/inode_manager.cc:281-286 | the next piece of the buffer, with arbitrary bytes after its end |
| InodeManager.FileSystem.ReadBlocks | lab-cse/lab4/inode_manager.cc:207-231 | the read buffer is large enough and gets the blocks in order |
| InodeManager.FileSystem.AllocInode | lab-cse/lab4/inode_manager.cc:111-131 | the first free inode becomes an empty file, or 0 if none is free |
| InodeManager.FileSystem.FreeInode | lab-cse/lab4/inode_manager.cc:133-149 | a live inode is cleared, a free one is left alone |
| InodeManager.FileSystem.GetAttr | lab-cse/lab4/inode_manager.cc:321-341 | the kind, which is zero exactly for files that are not there, and otherwise the length of the content |
| InodeManager.FileSystem.ReadFile | lab-cse/lab4/inode_manager.cc:197-237 | the content of the file |
| InodeManager.FileSystem.WriteFile | lab-cse/lab4/inode_manager.cc:240-319 | with enough free blocks the file holds the buffer, every other file is as it was, all invariants are kept, and only an old indirect block is leaked |
| InodeManager.FileSystem.RemoveFile | lab-cse/lab4/inode_manager.cc:343-374 | the file is gone, every other file and inode is as it was, and only an indirect block is leaked |
| InodeManager.PutNumber | lab-cse/lab4/inode_manager.cc:302-305 | the byte loop stores a number that reads back, and leaves the other numbers alone |
| WalRecovery.UndoRecovers | lab-cse/handson1/wal-sys.py:408-505 | one session on a disk: after undo recovery the disk has the committed actions' updates and no others, if nobody updates an account after a loser did and no loser creates an account that is on disk |
| WalRecovery.UndoRecoversExactly | lab-cse/handson1/wal-sys.py:408-505 | this condition is exact when balances can be told apart |
| WalRecovery.CreateSeesDisk | lab-cse/handson1/wal-sys.py:135-141 | when an account is created, looking for it on disk is the same as looking on the disk the session found |
| WalRecovery.ExclusiveUndoRecovers | lab-cse/handson1/wal-sys.py:408-505 | it is enough that actions on the same account do not overlap up to their outcomes and losers create only new accounts |
| WalRecovery.RedoRecovers | lab-cse/handson1/wal-sys.py:383-396 | one session on a disk: after redo recovery the disk has the committed actions' updates and no others, if the last committed update of an account is not flushed before an earlier one |
| WalRecovery.RedoRecoversExactly | lab-cse/handson1/wal-sys.py:383-396 | this condition is exact when balances can be told apart |
| WalRecovery.ExclusiveRedoRecovers | lab-cse/handson1/wal-sys.py:183-207 | it holds when actions on the same account do not overlap up to their ends |
| WalRecovery.LateEndGoesWrong | lab-cse/handson1/wal-sys.py:388-396 | a log whose actions do not overlap up to their outcomes, and on which redo recovery leaves the earlier balance |
| WalSessions.SessionsRecover | lab-cse/handson1/wal-sys.py:326-381 | after any sessions, crashes and recoveries the disk is the replay of all committed actions, if every account is sound |
| WalSessions.SessionsRecoverExactly | lab-cse/handson1/wal-sys.py:326-381 | and only then, when balances can be told apart: what counts for an account is the last session that touched it |
| WalSessions.AllRightExactly | lab-cse/handson1/wal-sys.py:326-381 | all recoveries of a history are right exactly if every session kept to the condition on the disk it found, which a caller can test before a create |
| WalSessions.ExclusiveSessionsRecover | lab-cse/handson1/wal-sys.py:326-381 | any number of sessions is recovered in which actions do not overlap on an account and no loser creates an account that an earlier session committed |
| WalSessions.RecoveredAlone | lab-cse/handson1/wal-sys.py:408-505 | the closing records of earlier recoveries make a recovery work on the last session only |
| WalSessions.RestartLosesAccount | lab-cse/handson1/wal-sys.py:380-380 | memory is empty after a restart, so a committed account can be created again, and undoing that deletes it |
| WalRecovery.UndoNeverFails | lab-cse/handson1/wal-sys.py:318-324 | undoing never deletes an account that is not on disk |
| WalRecovery.RecoverTwice | lab-cse/handson1/wal-sys.py:369-405 | recovering again, with the records the first recovery appended, changes nothing on disk |
| WalRecovery.LegalUpdates | lab-cse/handson1/wal-sys.py:135-167 | the undo value in every update record is what the log before it says |
| WalRecovery.LegalOrdered | lab-cse/handson1/wal-sys.py:59-107 | in a session's log every action starts, updates, resolves and ends in this order |
| WalSystem.WritesReplay | lab-cse/handson1/wal-sys.py:204-207 | flushing the queue for one action is replaying its updates |
| WalSystem.Bank.IsValidCommand | lab-cse/handson1/wal-sys.py:59-107 | which commands are refused |
| WalSystem.Bank.Execute | lab-cse/handson1/wal-sys.py:109-127 | a valid command appends exactly its record, and memory, disk and queue stay what the log says; a debit, credit, write or creation changes exactly its account, to the balance that is logged, with the old one as undo; any other command changes nothing |
| WalSystem.EffectOf | lab-cse/handson1/wal-sys.py:109-167 | every command's effect on the balances and its record, stated without the record's definition: a debit takes the value from the balance and a credit adds it |
| WalCommands.AcceptedExactly | lab-cse/handson1/wal-sys.py:59-107 | which command is accepted, by those accepted before: accounts are created once, used after that, and only by actions begun and not committed |
| WalCommands.BalancesExactly | lab-cse/handson1/wal-sys.py:109-167 | after any commands of a session memory has every account created, with the value set last plus the credits minus the debits since |
| WalCommands.RunSession | lab-cse/handson1/wal-sys.py:305-315 | the loop over the commands, on a bank after any earlier sessions, leaves these balances in memory and the session's log |
| WalSystem.Bank.HandleInit | lab-cse/handson1/wal-sys.py:135-141 | an update with no undo value |
| WalSystem.Bank.HandleWrite | lab-cse/handson1/wal-sys.py:143-167 | an update with the old balance as undo value |
| WalSystem.Bank.HandleCommit | lab-cse/handson1/wal-sys.py:169-173 | the outcome is logged |
| WalSystem.Bank.HandleEnd | lab-cse/handson1/wal-sys.py:183-189 | the action's queued writes reach the disk, and the end is logged |
| WalSystem.Bank.WriteToDisk | lab-cse/handson1/wal-sys.py:191-202 | at once with undo logging, queued with redo logging |
| WalSystem.Bank.FlushUpdates | lab-cse/handson1/wal-sys.py:204-207 | the loop writes the action's queued writes in order |
| WalSystem.Bank.RollBackEntry | lab-cse/handson1/wal-sys.py:408-505 | one entry read backwards: its action is sorted, and its update undone exactly if it is a loser's |
| WalSystem.Bank.RollBack | lab-cse/handson1/wal-sys.py:408-505 | one backward pass sorts all actions into winners, losers and done, and undoes exactly the losers' updates |
| WalSystem.Bank.ForwardScan | lab-cse/handson1/wal-sys.py:383-405 | the forward pass redoes the committed actions that have not ended, and logs their ends |
| WalSystem.Bank.Recover | lab-cse/handson1/wal-sys.py:339-381 | roll back, then scan forward or note the losers |
| WalSystem.Bank.CrashAndRecover | lab-cse/handson1/wal-sys.py:326-381 | a crash and a recovery after any session leave the log and the disk of one more finished session, from which the next one starts with empty memory; if every account is sound the disk is what the committed actions wrote |
| WalSystem.CreateAgain | lab-cse/handson1/wal-sys.py:369-381 | commands and crashes after which a committed account is gone from the disk |
| Marshalling.MessageRoundTrip | lab-cse/lab3/rpc/marshall.h:211-259 | arguments are read back as written, from behind the header; a message cut off anywhere is not ok and one with more bytes is not done |
| Marshalling.ReadBack | lab-cse/lab3/rpc/marshall.h:118-259 | any value, nested vectors and maps included, is read back wherever its bytes stand, and reading stops behind it |
| Marshalling.ReadOfFront | lab-cse/lab3/rpc/rpc.cc:906-915 | what is read from the front of a buffer without running out is what the whole buffer gives |
| Marshalling.StaysBad | lab-cse/lab3/rpc/rpc.cc:906-915 | once the bytes have run out, a message never becomes ok again |
| Marshalling.NumRoundTrip | lab-cse/lab3/rpc/rpc.cc:817-865 | signed and unsigned numbers of any size survive the conversion to bytes, high byte first |
| Marshalling.ReqHeaderRoundTrip | lab-cse/lab3/rpc/marshall.h:83-96 | a packed request header is unpacked unchanged, and reading goes on at the body |
| Marshalling.ReplyHeaderRoundTrip | lab-cse/lab3/rpc/marshall.h:98-108 | the same for a reply header |
| WireFormat.NumberLayout | lab-cse/lab3/rpc/rpc.cc:802-865 | byte i of a number, signed or not, is the number divided by 256 as often as there are bytes behind it, rounded down, modulo 256 |
| WireFormat.StringLayout | lab-cse/lab3/rpc/rpc.cc:853-858 | a string is its length in four bytes and its bytes, and a truth value is one byte |
| WireFormat.VectorLayout | lab-cse/lab3/rpc/marshall.h:211-218 | a vector is its size in four bytes and its elements in order, with nothing between |
| WireFormat.MapLayout | lab-cse/lab3/rpc/marshall.h:233-243 | a map is its size in four bytes and its entries in the order of their keys, each key before its value |
| WireFormat.RequestLayout | lab-cse/lab3/rpc/marshall.h:83-96 | behind four bytes for the size: xid, procedure, client nonce, server nonce and stamp, four bytes each |
| WireFormat.ReplyLayout | lab-cse/lab3/rpc/marshall.h:98-108 | behind four bytes for the size: xid and return value, four bytes each |
| MarshallBuffers.Marshall.RawByte | lab-cse/lab3/rpc/rpc.cc:770-780 | there is always room after growing, the byte is appended and what lies behind it stays |
| MarshallBuffers.Marshall.RawBytes | lab-cse/lab3/rpc/rpc.cc:782-793 | there is always room after growing, and the bytes are appended |
| MarshallBuffers.Marshall.Grow | lab-cse/lab3/rpc/rpc.cc:773-778 | a larger buffer with the same bytes |
| MarshallBuffers.Marshall.PutUnsigned | lab-cse/lab3/rpc/rpc.cc:832-842 | a number is written high byte first |
| MarshallBuffers.Marshall.Put | lab-cse/lab3/rpc/marshall.h:118-126 | a value of any type appends its encoding |
| MarshallBuffers.Marshall.PutAll | lab-cse/lab3/rpc/marshall.h:211-218 | the vector loop |
| MarshallBuffers.Marshall.PutPairs | lab-cse/lab3/rpc/marshall.h:233-243 | the map loop |
| MarshallBuffers.Marshall.PackReqHeader | lab-cse/lab3/rpc/marshall.h:83-96 | the header is filled in and the body and position stay as they were |
| MarshallBuffers.Marshall.PackReplyHeader | lab-cse/lab3/rpc/marshall.h:98-108 | the same for a reply |
| MarshallBuffers.Unmarshall.RawByte | lab-cse/lab3/rpc/rpc.cc:906-915 | the next byte, or not ok |
| MarshallBuffers.Unmarshall.RawBytes | lab-cse/lab3/rpc/rpc.cc:996-1007 | the next bytes, or not ok and no move |
| MarshallBuffers.Unmarshall.Get | lab-cse/lab3/rpc/marshall.h:201-209 | reading a value of any type, also from a buffer that runs out |
| MarshallBuffers.Unmarshall.GetAll | lab-cse/lab3/rpc/marshall.h:220-231 | the vector loop |
| MarshallBuffers.Unmarshall.GetPairs | lab-cse/lab3/rpc/marshall.h:245-259 | the map loop; a repeated key replaces |
| MarshallBuffers.Unmarshall.IsOkDone | lab-cse/lab3/rpc/rpc.cc:896-904 | no byte missed and none left |
| MarshallBuffers.Unmarshall.UnpackReqHeader | lab-cse/lab3/rpc/marshall.h:175-187 | the five fields, and the position at the body |
| MarshallBuffers.Unmarshall.UnpackReplyHeader | lab-cse/lab3/rpc/marshall.h:189-198 | the two fields, and the position at the body |
| MarshallBuffers.SendAndAccept | lab-cse/lab3/rpc/rpc.cc:188-214 | what one side marshalls behind a header is what the other side gets, and the message is done |
| DirectoryFormat.ReadsExactly | lab-cse/lab4/yfs_client.cc:345-373 | a directory is read back as it was written if and only if no name in it has a comma |
| DirectoryFormat.DirectoryIsMap | lab-cse/lab4/yfs_client.cc:189-222 | after any creations with comma-free names the text parses as the created entries in order, no name occurs twice, and lookup agrees with a plain map |
| DirectoryFormat.CommaIsLost | lab-cse/lab4/yfs_client.cc:290-311 | a name with a comma is never found, so it can be created again |
| DirectoryFormat.FormatParses | lab-cse/lab4/yfs_client.cc:356-371 | the parsing loop ends on every directory that creations can build, whatever the names |
| DirectoryFormat.NumberRoundTrip | lab-cse/lab4/yfs_client.cc:22-37 | an inode number survives being written as text |
| DirectoryFormat.DigitsAreDecimal | lab-cse/lab4/yfs_client.cc:31-37 | the k-th character of an inode number from the right is its k-th decimal digit |
| DirectoryFormat.DigitCount | lab-cse/lab4/yfs_client.cc:31-37 | an inode number is written without leading zeros |
| DirectoryClient.Directory.ReadDir2 | lab-cse/lab4/yfs_client.cc:345-373 | the loop finds exactly the entries of the text |
| DirectoryClient.Directory.Lookup2 | lab-cse/lab4/yfs_client.cc:290-311 | the first entry of that name, if there is one |
| DirectoryClient.Directory.AddToParent | lab-cse/lab4/yfs_client.cc:189-198 | the entry is appended to the text |
| DirectoryClient.Directory.Make | lab-cse/lab4/yfs_client.cc:200-222 | a name that is found is refused with its inode; any other is entered with the new one |

## Left out

- The store of the transaction servers is total over slots: the hash yields 2 to 1025, but the servers create extents up to 1023 only, and a key with slot 1024 or 1025 has none.
- TwoPhaseServer.YdbServer2pl.Get: assumes that the transaction has no other operation outstanding, as the database client keeps it; two at a time for one transaction would share its node and its copies, which the program does not guard against.
- TwoPhaseServer.YdbServer2pl.Set: the same assumption as for Get.
- TwoPhaseServer.YdbServer2pl.Del: the same assumption as for Get.
- TwoPhaseServer.YdbServer2pl.TransactionCommit: the same assumption as for Get.
- TwoPhaseServer.YdbServer2pl.TransactionAbort: the same assumption as for Get.
- TwoPhaseLocking.SomeTransactionCanProceed: is about the sections of the server. An operation that blocks in the lock server keeps its dispatch thread, and the RPC server has a pool of ten (lab-cse/lab3/rpc/rpc.cc:433): with ten operations blocked, the commit that would let them go on is not dispatched. The theorem takes threads not to run out.
- TwoPhaseAnswers.EverybodyCanFinish: the same, and a way on exists; that the scheduler takes it is not claimed.
- TwoPhaseServer.YdbServer2pl.CyQuery: the inner maps of the wait graph, whose values are always 1, are sets.
- Which of several waiting threads a condition variable wakes, and that a woken thread runs: the lock servers and clients are covered for safety and for what can still happen, not for fairness. A waiting thread may wake at any time, as the thread library allows; where two threads of one client wait, the one signal of the program may go to the wrong one, and then the way on that `LockCacheProgress.EveryAcquireCanSucceed` finds needs a wake-up without a signal.
- RPC failure paths of the lock and extent servers: callbacks are taken to complete, and binding to a client to succeed.
- RpcProtocol.HandlerRunsAtMostOnce: is about one client nonce other than zero and one server instance; a server restart (`oldsrv_failure`), `cancel` and destruction, and the wrap-around of xids are not modelled. A nonce of zero is answered by running again, as the program does.
- RpcHistory.ReturnedWhatItsRunProduced: a timeout is possible at any time; the clock, retransmission timers and connections are left to the network steps.
- LockCacheModel: one lock; locks do not share state. The statistics calls are left out.
- ExtentCacheCoherence.ReadsLastPut: operations on one extent are serialised, as the lock service does for the file system; times are left out. Using an extent that was never created or is removed, and a put on an extent that is not cached, dereference a null entry in the program and are preconditions here.
- ExtentCacheEndpoints.ExtentClient.Get: cached items are values in a map where the program keeps references, and the masking of extent numbers to 31 bits is left out; the inode layer behind the extent server is represented by kind and content.
- InodeManager.FileSystem.WriteFile: requires enough free blocks and at most 228 blocks of data, because allocation answers 0 when the disk is full and larger files lose their end.
- InodeManager.FileSystem.GetAttr: times are left out, and inodes are a typed table instead of bytes in their own blocks; `Regions` shows that those blocks are used for nothing else.
- InodeManager.FileSystem.RemoveFile: the indirect block is not freed by the program either; the model keeps it as leaked.
- WalModel: checkpoints and aborts use names the program does not define and cannot complete, so logs have neither; balances stay numbers across a restart where the program reads them as text; and the mode, a command-line option there, is the same for all sessions.
- WalSystem.Bank.Execute: requires that a begun action has a new number, in all sessions, which the program asks of its user and does not check.
- WalSystem.Bank.RollBack: assumes action numbers that are used once, as Execute does, and no checkpoints; the sets of pending winners and losers matter for checkpoints only and are left out.
- MarshallBuffers.Unmarshall.RawBytes: position and length are added without the 32-bit wrap-around of the program.
- MarshallBuffers.Marshall.PutUnsigned: one method for all sizes of number where the program has one operator for each; buffer capacities do not overflow.
- Marshalling.ReadBack: maps have numbers or strings as keys; a vector is read into an empty one, since the program appends to what is there. Checksums, which nothing in the repository turns on, are left out.
- DirectoryFormat.NumberRoundTrip: blanks and signs in front of a number, which creations never write, are not skipped, and numbers are unbounded.
- DirectoryClient.Directory.ReadDir2: requires a text on which the program's loop ends; creations build no other (`FormatParses`).
- DirectoryClient.Directory.Lookup2: the same requirement as for ReadDir2.
- DirectoryClient.Directory.Make: the locks around it, the extent that is created and the file mode are left out; mkdir and mksym differ from create only in the extent's type.
- `unlink` in the file system client, which is right only if the first occurrence of the name as a substring is the entry itself.
- The file data operations of the client, FUSE glue, sockets, polling, threads, printing and the testers.
- The first lab's inode manager and the other copies of files that later labs replace; the bit-level labs.
