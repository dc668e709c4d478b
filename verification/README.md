# Verified models of SVP-blockchain

A Dafny model of the parts of SVP-blockchain whose correctness depends on more than one function, with
proofs of what they promise. `dafny verify dfyconfig.toml` checks everything.

- **Consensus** (`Quorum`, `Chain`, `Replica`, `ReplicaRules`, `ReplicaObject`, `ConsensusRun`, `Agreement`,
  `AgreementLinks`, `Progress`). Replicas hold view, high certificate, last executed block and log; the network is a growing set of signed
  votes, of which any certificate a majority supports can be made at any time; proposals come from anywhere.
  `Driver` is the code in place; each of its methods equals a function of `Replica` and is safe in every
  system that keeps the invariant. Runs are sequences of those functions, applied by any replica in any
  order, mixed with arbitrary votes of faulty ones. Agreement is proved under the *proposer discipline* that
  receivers do not check: certified blocks build on the block their certificate is for, and those of one
  view lie on one chain. It is false without either half, as two reachable states show. That the protocol
  also gets somewhere is proved as well: a leader followed by a majority can commit whatever it proposes.
- **Block execution** (`Trackers`, `BlockExecutor`, `MergeSignal`, `MergeSignalLoss`). A transaction is a
  deterministic program that decides its next request from the answers so far; workers interleave freely.
  The merge signal is modelled with the emitter's bounded, lossy channels and unordered delivery.
- **EVM overlay store** (`ByteStrings`, `SkipList`, `SkipListInsert`, `MemDB`, `Iterators`, `JoinIterator`,
  `CacheDB`, `StateDB`). The skip list is laid out in the same two flat arrays, held as sequences
  that are reassigned; every layer above refines maps.
- **EVM metering** (`Refund`, `EvmMemory`, `EvmGas`, `EvmLedger`, `Interpreter`, `JumpAnalysis`). The interpreter
  runs on a tape of instructions as they are met at run time: opcode, operands and surroundings are
  arbitrary, so a statement about all tapes covers every program, input and state.
- **State commitment** (`MerkleSpec`, `MerkleTree`, `StateStorage`). The hash is a parameter.
- **Stake window** (`StakeWindow`, `StakeRun`, `StakeWindowSkip`). Every replica has windows of its own, set up
  from a genesis certificate and moved by the certificates it adopts; votes, certificates and adoptions come
  in any order, and those who do not keep to the voting rule vote what they like.
- **Transaction queue** (`TxQueue`). `Common` holds what modules share.

Four results bound what the code promises. The 20-slot merge subscription is enough exactly when there are
at most 21 workers or at most 21 transactions. The random voting rule is right for a stake s exactly above
height 50 or with 3s + 3 below 2^64. A full vote always reaches the majority exactly when the least votes
(what each window misses to half of its limit, above height 50 to all of it) reach it on top of the leader's
window: so it does while all hold the leader's last certificates but the oldest, and need not once one of
them skipped a certificate. A join iterator walked a second time is right exactly when nothing beyond the
first key of all is visible.

## Model

| member | source | states |
|---|---|---|
| Quorum.MajorityCount | node/role_store.go:228-231 | the signature threshold is n minus floor((n-1)/3) |
| Quorum.HonestIntersection | node/role_store.go:228-231 | any two majorities share a validator outside every set of at most n - majority faulty ones |
| Quorum.Validate | core/quorum_cert.go:39-64 | a missing certificate is reported as such; acceptance holds exactly for long enough, duplicate-free lists of genuine validator signatures with a quota each; without grace the signers are a majority; every other answer, the missing-quota panic included, names the first thing that is wrong |
| Quorum.ValidateSignatures | core/quorum_cert.go:43-64 | the same for the signature list of a certificate that is there |
| Quorum.CheckSignatureList | core/quorum_cert.go:51-64 | the loop accepts exactly the lists without repetition made of genuine validator signatures with a quota each, and otherwise reports what is wrong at the first bad place |
| ReplicaObject.Driver.OnCommit | consensus/driver.go:325-334 | in place: ancestors first, then the block: the log grows by the missing part of the path; the fatal branch exactly when the path does not lead to what was committed before |
| ReplicaObject.Driver.CommitRecursive | consensus/driver.go:317-323 | in place: commits a block and makes it the last executed one, or dies in the fatal branch |
| ReplicaObject.Driver.UpdateQCHigh | consensus/driver.go:286-315 | in place: a certificate of higher priority replaces the high one and commits the parent when both views agree; with a valid certificate the replica stays in order, does not crash, and its log only grows |
| ReplicaObject.Driver.ApproveProposal | consensus/rotator.go:95-156 | in place: the three-way approval of a new view's leader |
| ReplicaObject.Driver.OnReceiveProposal | consensus/validator.go:84-154 | in place: approve, refuse lower views and lower certificates, update the high certificate, vote for the leader's block; in every system it can happen in the step is safe: no crash, the log a grown committed path, the vote allowed |
| ReplicaObject.Driver.OnReceiveVote | consensus/driver.go:259-283 | in place: the first vote of a voter for the running proposal is counted; a majority with enough quota makes a certificate of just these voters, which becomes the high one if it is higher, and ends the proposal; nothing else changes; safe in every system it can happen in |
| ReplicaObject.Driver.NewProposal | consensus/pacemaker.go:62-91 | in place: the settled leader proposes a block one higher on its leaf, with its high certificate, and counts its own vote; anyone else does nothing; safe in every system it can happen in |
| ReplicaObject.Driver.OnReceiveQC | consensus/rotator.go:158-205 | in place: faces the certificate, enters the next view with its leader if a change is under way, counts, and proposes on the high certificate as leader once a majority has reported; safe in every system it can happen in |
| ReplicaObject.Driver.OnViewTimeout | consensus/rotator.go:224-249 | in place: starts a view change, counting its own certificate if it leads the next view; safe in every system |
| ReplicaObject.Driver.OnLeaderTimeout | consensus/rotator.go:207-222 | in place: counts the time-out, starts a view change and gives up after too many; safe in every system |
| ReplicaRules.CommitRight | consensus/driver.go:317-334 | committing, said of the log: it grows by exactly the missing part of the path to the block, or the replica dies exactly when the path misses what was committed before |
| ReplicaRules.FacedRight | consensus/driver.go:286-315 | facing a certificate, field by field: a higher one is adopted, its block the leaf, its parent committed when of the same view and higher; any other changes nothing |
| ReplicaRules.CountedRight | consensus/driver.go:259-283 | collecting a vote, field by field: whose vote fits, when a majority is reached, which certificate it makes and what is reset |
| ReplicaRules.HeardRight | consensus/validator.go:84-154 | hearing a proposal, field by field: who is taken for the leader, which proposals are heeded, and when the replica votes |
| ReplicaRules.ProposalRight | consensus/driver.go:225-248 | making a proposal, field by field: parent, height, view and certificate of the block, and the leader's own vote |
| ReplicaRules.ReportedRight | consensus/rotator.go:183-203 | entering the next view and proposing in it, field by field |
| Chain.PathHeights | consensus/driver.go:325-334 | the path from genesis to a well linked block has consecutive heights |
| ConsensusRun.CommonVoter | consensus/driver.go:270-276 | two certified blocks of different views have an honest voter in common, and the later block carries no lower certificate |
| ConsensusRun.LaterCertifiedExtends | consensus/driver.go:286-303 | once a child is certified in its parent's view, everything certified in a later view, or in that view and no lower than the parent, extends the parent |
| ConsensusRun.ReadyOnOneChain | consensus/driver.go:299-301 | all blocks the two-chain rule lets commit lie on one chain |
| ConsensusRun.OnCommitPath | consensus/driver.go:325-334 | committing a descendant of the last executed block appends exactly the missing path |
| ConsensusRun.UpdateQCHighOk | consensus/driver.go:286-315 | adopting a valid certificate keeps the high certificate highest, the log the path to a committable block, and avoids the fatal branch |
| ConsensusRun.SigningIsSound | consensus/validator.go:99-107 | a vote by the voting rule keeps every signed vote at or above the certificates its signer knew before |
| ConsensusRun.StepInv | consensus/validator.go:84-154 | every step of every replica and every vote of a faulty one keeps the invariant |
| Agreement.LogGrows | consensus/driver.go:317-334 | over a run an honest log only grows |
| Agreement.CommittedLogsAgree | consensus/driver.go:286-334 | agreement over every run whose certified blocks obey the proposer discipline: of any two honest logs, at any two moments, one is a prefix of the other |
| Agreement.NeverBreached | consensus/driver.go:325-334 | over every such run the fatal branch is never reached and each log is a chain of consecutive heights from genesis |
| Agreement.EquivocationBreaksAgreement | consensus/validator.go:84-154 | without one chain per view agreement fails: a reachable state of four replicas, one faulty, in which two honest ones committed different blocks at height 1 |
| AgreementLinks.UnlinkedBlockBreaksAgreement | consensus/validator.go:84-154 | nor can the links be dropped: a reachable state with one chain per view in which a block does not build on the block its certificate is for, and two honest replicas committed different blocks |
| Progress.OneChainDisciplined | consensus/driver.go:225-248 | votes that were all for blocks of one linked chain obey the proposer discipline |
| Progress.NextRound | consensus/driver.go:259-283 | a settled leader followed by a majority has a run in which its next block is certified by just them, and is then in the same position again |
| Progress.LeaderDelivers | consensus/pacemaker.go:62-91 | from genesis, for every sequence of payloads there is a run after which the leader and everyone in an honest majority has committed blocks with these payloads, in this order |
| Trackers.StateTracker.Root | execution/common/state_tracker.go:27-35 | a tracker over a store, empty and without dependency tracking |
| Trackers.StateTracker.Spawn | execution/common/state_tracker.go:50-54 | a child reads what its parent reads under the longer prefix |
| Trackers.StateTracker.GetState | execution/common/state_tracker.go:97-113 | a read answers from the nearest tracker of the line that wrote the key and is noted in every tracking one on the way |
| Trackers.StateTracker.SetState | execution/common/state_tracker.go:115-119 | the key then reads as the value, every other key as before |
| Trackers.StateTracker.Merge | execution/common/state_tracker.go:74-84 | in any map order the child's changes, prefixed, override the parent's: afterwards the parent reads, under the child's prefix, what the child read |
| Trackers.StateTracker.HasDependencyChanges | execution/common/state_tracker.go:56-72 | true exactly when some key the child read was changed; for the root's empty prefix the condition the executor's steps use |
| BlockExecutor.StepAgrees | execution/common/state_tracker.go:56-72 | two roots that agree on the keys a program depends on let it take the same step |
| BlockExecutor.ReadTxIsTracker | execution/common/state_tracker.go:97-113 | what the executor's steps read and note for a transaction is what its tracker object answers and notes, and the root notes nothing |
| BlockExecutor.ReadKidIsTracker | execution/common/state_tracker.go:97-113 | the same for a chaincode's own tracker, which notes in itself and, where it did not write, in the transaction's |
| BlockExecutor.SpawnMeans | execution/common/state_tracker.go:50-54 | a spawned tracker reads what the transaction reads under the prefix; all others as before |
| BlockExecutor.GetMeans | execution/common/state_tracker.go:97-113 | a read is answered with what the tracker sees and changes no reads |
| BlockExecutor.PutMeans | execution/common/state_tracker.go:115-119 | a written key reads as the value; others, and other trackers but through the transaction's, as before |
| BlockExecutor.MergeMeans | execution/tx_executer.go:103-103 | after merging, the transaction reads under the prefix what the chaincode's tracker read, and everything that one did not write as before |
| BlockExecutor.FinishMeans | execution/blk_executor.go:134-144 | finishing ends the transaction with that error for good |
| BlockExecutor.SerialTxMeans | execution/blk_executor.go:122-132 | after a transaction that succeeded the state reads as the transaction last read it; one that failed changed nothing |
| BlockExecutor.SpeculateFaithful | execution/blk_executor.go:122-132 | a speculative execution whose dependencies did not change equals a run on the current root |
| BlockExecutor.SerialRunUnique | execution/blk_executor.go:32-49 | executing the transactions one by one has one outcome |
| BlockExecutor.SerialEquivalence | execution/blk_executor.go:101-144 | for every interleaving of workers, reads and merges, at every moment, root changes and recorded outcomes are those of serial execution of the merged transactions |
| BlockExecutor.InterleavingIsIrrelevant | execution/blk_executor.go:32-49 | any two complete interleavings end with the same changes and the same commit records |
| MergeSignal.RoomForWorker | emitter/emitter.go:33-38 | with at most 21 workers or at most 21 transactions a worker's 20-slot subscription is never full when an event is sent to it |
| MergeSignal.StepInv | execution/blk_executor.go:107-153 | every step of dispatcher, workers and emitter keeps the signal invariant, Emit calls overlapping in any order |
| MergeSignal.TargetIsLive | emitter/emitter.go:54-82 | an event is only sent to a subscription that is still registered |
| MergeSignal.NeverStuck | execution/blk_executor.go:107-120 | no lost wake-up: until the dispatcher has returned somebody can move |
| MergeSignal.MeasureDrops | execution/blk_executor.go:70-120 | every step brings the end nearer |
| MergeSignal.AllMergedInOrder | execution/blk_executor.go:70-153 | with at least one of each and at most 21 workers or at most 21 transactions every run is finite and, when it can go no further, all transactions are merged once each in index order and the dispatcher has returned, not earlier |
| MergeSignalLoss.LostWakeUp | emitter/emitter.go:33-38 | the bound is exact: for every number of transactions and of workers above 21 a state is reachable in which nothing can move and a transaction is unmerged |
| ByteStrings.PrefixRange | evm/statedb/cachedb.go:113-122 | the range from a prefix to its successor holds exactly the keys with the prefix |
| ByteStrings.LessMeans | evm/statedb/memdb.go:97-122 | the order of keys: the first difference decides, and a key comes before its extensions |
| MemDBStore.MemDB.FindGE | evm/statedb/memdb.go:97-122 | finds the node of the least key not below the target, and per level the last node below it |
| MemDBStore.MemDB.FindLT | evm/statedb/memdb.go:124-140 | the node of the greatest key below the target, the head exactly when there is none |
| MemDBStore.MemDB.FindLast | evm/statedb/memdb.go:142-157 | the node of the greatest key, the head exactly for an empty store |
| MemDBStore.MemDB.Put | evm/statedb/memdb.go:163-199 | for every drawn height the arrays stay a skip list (sorted, each level a sublist of the one below) and stand for the map with the key set |
| MemDBStore.MemDB.Insert | evm/statedb/memdb.go:177-199 | threads a new node into every level up to its height |
| MemDBStore.MemDB.Overwrite | evm/statedb/memdb.go:164-175 | appends the new value and redirects the node's value |
| MemDBStore.MemDB.Delete | evm/statedb/memdb.go:204-206 | stores the tombstone |
| MemDBStore.MemDB.Get | evm/statedb/memdb.go:213-224 | the last value or tombstone; unknown exactly for keys never stored |
| MemDBStore.MemDB.Find | evm/statedb/memdb.go:232-245 | the entry of the least key not below the target, or none |
| MemDBStore.MemDB.ForEach | evm/statedb/memdb.go:247-256 | visits exactly the stored entries in ascending key order |
| MemDBStore.MemDB.DeepClone | evm/statedb/memdb.go:72-85 | a fresh store with the same contents |
| MemDBStore.MemDB.Reset | evm/statedb/memdb.go:300-315 | an empty, well-formed store |
| MemDBStore.MemDB.constructor | evm/statedb/memdb.go:60-70 | an empty, well-formed store |
| SkipListInsert.InsertKeepsShape | evm/statedb/memdb.go:177-199 | after an insertion every level of every node leads to the next node of that level, keys stay sorted, and the map gained the entry |
| Iterators.DbIter.First | evm/statedb/iterator.go:226-239 | stands on the least key with the prefix, or none |
| Iterators.DbIter.Next | evm/statedb/iterator.go:270-285 | stands on the next key with the prefix, or none |
| Iterators.DbIter.Fill | evm/statedb/iterator.go:199-220 | accepts a node exactly when its key lies in the range |
| Iterators.SitsStill | evm/statedb/iterator.go:189-197 | a cursor keeps its node and key over every write to the store |
| JoinIterator.SelectRight | evm/statedb/iterator.go:136-173 | with both heads beyond the last key the entry shown is the first of either side, a phantom of an empty side, or nothing is left |
| JoinIterator.JoinIter.PositionFirst | evm/statedb/iterator.go:53-96 | on a fresh or a used iterator, shows the smaller of the two first entries; an empty side is not recorded as ended, and an end recorded before stays recorded |
| JoinIterator.JoinIter.Step | evm/statedb/iterator.go:121-173 | one step: the first key of either side beyond the last, a phantom turn that records an end, or the end |
| JoinIterator.JoinIter.Next | evm/statedb/iterator.go:106-119 | exactly the first visible key beyond the last one, with its value, of what the iteration gets to see; skipping hidden and phantom entries terminates |
| JoinIterator.JoinIter.First | evm/statedb/iterator.go:39-51 | exactly the first visible key of all, or none; on an iterator that has recorded ends, of what is left: of an ended side only the first key |
| JoinIterator.Walk | evm/statedb/iterator.go:39-173 | a whole iteration ends and lists, strictly ascending and once each, exactly the keys with a non-empty value in overlay over backend, with those values; on an iterator that has recorded ends, of overlay and backend with each ended side cut down to the first key |
| JoinIterator.SecondWalkExact | evm/statedb/iterator.go:39-96 | a walk that began with ends recorded is right if and only if beyond the first key the ended sides make no difference to any read |
| JoinIterator.WalkTwice | evm/statedb/iterator.go:39-173 | a second walk through one iterator lists the first key at most: it is right if and only if the first walk listed nothing, or just the first key of all |
| CacheStore.CacheDB.Put | evm/statedb/cachedb.go:80-83 | writes the prefixed key into the overlay |
| CacheStore.CacheDB.Delete | evm/statedb/cachedb.go:108-111 | writes a tombstone |
| CacheStore.CacheDB.Get | evm/statedb/cachedb.go:89-101 | overlay first, tombstones included, backend otherwise; an error exactly when neither knows the key |
| CacheStore.CacheDB.NewIterator | evm/statedb/cachedb.go:113-122 | a join iterator over overlay and a backend snapshot, for the prefixed key range |
| CacheStore.CacheDB.Commit | evm/statedb/cachedb.go:56-65 | empties the overlay into the backend and leaves every read unchanged |
| CacheStore.CacheDB.CleanContractStorageData | evm/statedb/cachedb.go:136-145 | deleting into the overlay it iterates, empties every storage key of the address and touches no other key, and terminates |
| CacheStore.FlushDone | evm/statedb/cachedb.go:56-65 | writing or deleting the traversal's entries one by one gives the flushed backend |
| StateStore.RevertRestores | evm/statedb/statedb.go:355-386 | after any writes, inner snapshots and inner reverts, reverting gives back exactly the state and the outer snapshots of the moment the snapshot was taken |
| StateStore.OuterSnapshotsKept | evm/statedb/statedb.go:355-386 | nothing done inside changes an outer snapshot |
| StateStore.StateDB.Snapshot | evm/statedb/statedb.go:355-372 | pushes the whole state and changes nothing else; overlay in a store of its own, shared with nothing live |
| StateStore.StateDB.RevertToSnapshot | evm/statedb/statedb.go:374-386 | restores overlay, suicides, refund and logs of snapshot i, keeps the earlier ones valid, shares no store; refuses a number out of range |
| StateStore.StateDB.CommitToCacheDB | evm/statedb/statedb.go:109-122 | in any order, account and storage keys of suicided addresses read as nothing, all other keys as before |
| StateStore.StateDB.Commit | evm/statedb/statedb.go:100-107 | the same, and afterwards committed and current state are equal for every key |
| StateStore.StateDB.SetState | evm/statedb/statedb.go:159-161 | the slot then reads as the value, every other key as before; suicides, log, refund and snapshots untouched |
| StateStore.StateDB.GetState | evm/statedb/statedb.go:145-152 | the slot through the overlay as a 32-byte word |
| StateStore.StateDB.GetCommittedState | evm/statedb/statedb.go:163-171 | the slot of the backend alone |
| StateStore.StateDB.AddRefund | evm/statedb/statedb.go:124-126 | 64-bit addition to the counter |
| StateStore.StateDB.SubRefund | evm/statedb/statedb.go:130-136 | subtracts, or reports the panic exactly when there is too little |
| StateStore.StateDB.Suicide | evm/statedb/statedb.go:286-297 | marks an address exactly when its account record has a byte of nonce or code hash set |
| StateStore.StateDB.AddLog | evm/statedb/statedb.go:332-334 | appends to the log |
| Refund.ClearedAfterWrite | evm/gas_table.go:153-196 | writing a slot changes the set of cleared slots by that slot at most, in the way original, current and new value say |
| Refund.StoreStaysSolvent | evm/gas_table.go:129-251 | under each of the three rule sets the counter can pay what is taken back and still covers 15000 per cleared slot after the write |
| Refund.GasSStore | evm/gas_table.go:211-251 | in place on the state: never panics and leaves the counter good for the write that follows |
| Refund.MeteringIsNet | evm/gas_table.go:153-251 | net metering: however often a slot is written, the stores cost together the touching price per store plus a worth that depends on original and final value only |
| Refund.NetSplit | evm/gas_table.go:153-251 | how one store is charged: no change moves no refund; an untouched slot pays to be set or changed; a slot already changed costs just the touching price, and the counter moves by what the slot is promised after and before |
| Refund.LegacySplit | evm/gas_table.go:129-152 | under the older rules setting a clear slot costs 20000, anything else 5000, and only clearing a set one is paid back |
| Refund.StepsAreStates | evm/statedb/statedb.go:355-386 | the steps do to the state and its snapshots what taking, reverting to and writing do there; a store that goes through writes just its slot |
| Refund.StepInv | evm/gas_table.go:129-251 | every store, failing store, self-destruct, snapshot, revert and commit keeps the refund invariant |
| Refund.RefundNeverNegative | evm/statedb/statedb.go:124-136 | over every run the counter never goes below zero and, outside a failing frame, is at least 15000 times the slots that were set at the last commit and are clear now |
| Refund.CleaningAloneSolvent | evm/statedb/statedb.go:109-122 | emptying suicided addresses without committing leaves the counter good exactly when it also covers their slots that were set at the last commit |
| Refund.CleaningAloneCanPanic | evm/statedb/statedb.go:109-136 | it need not: with two set slots and one self-destruct, setting both again panics |
| EvmMemory.ToWordSize | evm/common.go:68-74 | rounds up to words for every 64-bit size |
| EvmMemory.CalcMemSizeWithUint | evm/common.go:38-51 | end of the region, or overflow exactly when it leaves 64 bits |
| EvmMemory.CalcMemSize | evm/common.go:28-33 | a size that fits reaches the region |
| EvmMemory.FeeExact | evm/gas_table.go:77-81 | for every permitted size the 64-bit fee is 3w + floor(w*w/512) |
| EvmMemory.Memory.GasCost | evm/gas_table.go:62-89 | charges exactly the difference of the two fees, without underflow, and refuses exactly sizes above the bound |
| EvmMemory.Memory.Resize | evm/memory.go:65-69 | grows with zeros, never shrinks |
| EvmMemory.Memory.Set | evm/memory.go:37-62 | writes the region and nothing else |
| EvmMemory.Memory.GetPtr | evm/memory.go:72-98 | the bytes of the region, nothing for an offset at or past the end |
| EvmGas.SizesSuffice | evm/memory_table.go:19-113 | for every opcode the size table reaches every region the instruction reads or writes |
| EvmGas.SizesLeast | evm/memory_table.go:19-113 | and no further: a memory of 64-bit size reaches both regions exactly when it has at least the size of the table; overflow exactly when none does |
| EvmGas.PriceExact | evm/gas_table.go:96-451 | for every opcode the metered part is the price as a number without bounds, refused exactly when it or the length it is taken of leaves 64 bits |
| EvmGas.WrappedCallCannotBePaid | evm/gas_table.go:42-58 | when the base price exceeds the gas available the wrapped subtraction always ends in out of gas |
| EvmGas.CallLeavesASixtyFourth | evm/gas_table.go:42-58 | otherwise the call is affordable and passes on what was asked for, or all but a 64th if that is less |
| EvmGas.EveryStepCosts | evm/jump_table.go:195-1014 | every non-halting opcode of the Istanbul table costs at least one gas, whatever it finds |
| EvmGas.CallsHandLess | evm/gas_table.go:361-451 | a call that can be paid costs at least 700 more than the gas it hands over, which is the gas passed on and 2300 with a value |
| Interpreter.Pay | evm/interpreter.go:227-261 | pays one instruction exactly when the gas suffices: its price is taken, memory grows to exactly what it needs and reaches everything it touches, and the growth is priced at the difference of the fees; memory is untouched otherwise |
| Interpreter.RequiredMemory | evm/interpreter.go:232-248 | the rounded size, or the overflow error exactly when it leaves 64 bits |
| Interpreter.Run | evm/interpreter.go:124-288 | every run of every program with every call tree ends, after at most 2*gas+1 instructions in all frames together and with no more gas than given; the account of its instructions and of all frames below is right line by line, what comes back from a frame below is what that has left, the fees for memory sum to the fee of the memory it leaves, and they and the rest charged, net of gas returned, are the gas spent |
| Interpreter.Perform | evm/interpreter.go:263-288 | an instruction that was paid for leaves the line the account needs: gas taken, gas returned, and the frame that ran for it, one deeper and read-only where it must be |
| EvmLedger.FeesTelescope | evm/gas_table.go:62-89 | in every account the memory fees sum to the fee of the size reached |
| EvmLedger.GasTelescopes | evm/interpreter.go:227-261 | in every account the gas at hand is what was given less the memory fees and the rest, net of what came back |
| Interpreter.Execute | evm/interpreter.go:268-269 | an instruction that is neither call nor creation reads just the bytes its operands say, writes its data there and nowhere else, and leaves the size of memory alone |
| Interpreter.Call | evm/evm.go:179-384 | all four kinds of call: exactly what the callee's account leaves comes back after success or revert, all of it from nobody, the rest after a precompiled contract, nothing after a failure |
| Interpreter.Create | evm/evm.go:393-467 | creation: exactly what the account of its code leaves comes back, less the code it stores by the byte; all of it after a revert or a refusal, nothing after a failure |
| Interpreter.KeepCode | evm/evm.go:435-463 | a finished creation succeeds exactly when its code is small enough and its storage can be paid, and then costs exactly that; a revert keeps the gas, a failure loses it |
| Interpreter.ExecuteCall | evm/instructions.go:682-809 | the call instructions get back exactly what the callee leaves, run it read-only where they must, write its answer unless it failed, and leave the caller strictly less gas than before |
| Interpreter.ExecuteCreate | evm/instructions.go:605-680 | the same for creation, on all but a 64th of the gas |
| JumpAnalysis.Set | evm/analysis.go:24-26 | sets one bit and no other |
| JumpAnalysis.Set8 | evm/analysis.go:27-30 | sets eight bits over a byte border and no other |
| JumpAnalysis.CodeBitmap | evm/analysis.go:38-62 | for all code a bit is clear exactly where a linear scan from 0 reaches an opcode; no write leaves len/8 + 5 bytes |
| JumpAnalysis.MarkPushed | evm/analysis.go:47-56 | the data bytes of a push, by eights and singly |
| JumpAnalysis.ReachedFrom | evm/analysis.go:38-62 | the scan from a reached position is the scan from 0 |
| JumpAnalysis.Contract.IsCode | evm/contract.go:114-143 | the kept, the shared and a fresh analysis give the same answer |
| JumpAnalysis.Contract.ValidJumpdest | evm/contract.go:85-97 | true exactly for JUMPDEST bytes that are reached as opcodes |
| MerkleSpec.GroupExists | merkle/tree_calc.go:42-60 | a group exists exactly when its first node does |
| MerkleSpec.GroupRange | merkle/tree_calc.go:57-80 | a node belongs to group g exactly when it lies in [gb, gb + b) |
| MerkleSpec.HeightIsFirst | merkle/tree_calc.go:25-33 | the height is the first number of levels with a single node on top |
| MerkleSpec.GroupsInOrder | merkle/types.go:151-162 | the strings hashed for the groups of a row, one after another, are the row one after another |
| MerkleSpec.PreimageLength | merkle/types.go:151-162 | with pieces of one length each group's string has as many pieces as the group |
| MerkleSpec.RootOfOneGroup | merkle/types.go:151-162 | the root over a single group is the hash of its leaves in order |
| MerkleSpec.RootOfTwo | merkle/types.go:151-162 | two leaves x, y have the root h(x + y) |
| MerkleSpec.RootBinds | merkle/types.go:151-162 | equal roots over equally many leaves mean equal leaves, or two different strings hashed for the same group collide |
| MerkleSpec.PositionRoundTrip | merkle/types.go:20-47 | a position is recovered from its bytes |
| MerkleSpec.MostSignificantFirst | merkle/types.go:20-47 | the bytes of an index are its digits to base 256, the most significant first |
| MerkleSpec.NoLeadingZeros | merkle/types.go:20-47 | without leading zeros, and none at all for zero |
| MerkleTree.HeightOf | merkle/tree_calc.go:25-33 | the loop computes the height |
| MerkleTree.Group.SetNode | merkle/types.go:114-120 | puts a node in its place, over an earlier one for the same place, and touches no other |
| MerkleTree.Group.Load | merkle/types.go:123-140 | completes the group from the store up to the end of the row |
| MerkleTree.Group.MakeParent | merkle/types.go:143-162 | the parent's data is the hash of the group's part of the row, in order |
| MerkleTree.GroupNodesByParent | merkle/tree.go:133-162 | every node lands in its parent's group and nowhere else, in the order given |
| MerkleTree.UpdateOneLevel | merkle/tree.go:74-106 | in whatever order workers finish, exactly the parents of dirty nodes, each with the value of the row above; of repeated nodes the last one counts |
| MerkleTree.CleanAbove | merkle/tree.go:61-65 | nodes outside the dirty groups have the same value in the old and the new tree, growth in height included |
| MerkleTree.Tree.Update | merkle/tree.go:51-72 | the root equals the root computed from the whole new leaf sequence, in which a later leaf overrides an earlier one for the same place, and every node not in the result is right in the store; the root of a tree of one leaf is the first leaf given |
| MerkleTree.CommitStandsFor | merkle/store.go:61-73 | after the commit every stored node equals the hash of its current children |
| MerkleTree.MapStore.CommitUpdate | merkle/store.go:61-73 | writes leaves, then branches, count and height |
| MerkleTree.Tree.Root | merkle/tree.go:41-47 | the root of the leaves the store stands for; none for an empty tree |
| MerkleTree.Tree.Verify | merkle/tree.go:109-131 | accepts any list of leaves exactly when it asks for stored positions only and the tree with the claimed leaves in place has the stored root |
| MerkleTree.VerifyMeans | merkle/tree.go:109-131 | with digests of one length and no collision among the strings hashed, acceptance holds if and only if every claimed leaf that counts is the stored one: the last for each position, the first for a tree of one leaf; with distinct positions all count |
| StateStorage.SetNewTreeIndexes | storage/state_store.go:38-65 | known keys keep their index, new ones get count + rank among the new keys, whatever order the list has |
| StateStorage.RankIsPlace | storage/state_store.go:51-55 | in sorted order the rank of a key is its place |
| StateStorage.Storage.LoadPrevTreeIndexes | storage/state_store.go:29-36 | each change gets the index its key has, if any |
| StateStorage.Storage.ComputeUpdatedTreeNodes | storage/state_store.go:67-102 | in any worker order, each change's leaf |
| StateStorage.Storage.WriteStates | storage/state_store.go:104-119 | all values written, and the indexes of keys that had none |
| StateStorage.Storage.Commit | storage/storage.go:158-227 | after every commit keys and leaves correspond one to one without gaps, each leaf hashes its value, and count and root are functions of the prior state and the set of changes |
| StateStorage.Storage.VerifyState | storage/storage.go:127-148 | returns the last committed value and never panics |
| StateStorage.IndexStable | storage/state_store.go:38-57 | a commit changes no index a key already has |
| StateStorage.LeavesDetermined | storage/state_store.go:84-102 | values and indexes determine the leaves |
| StateStorage.ReplicasAgree | execution/common/state_tracker.go:86-95 | replicas with one prior state and one block get the same indexes, leaf count and root for any interleaving and any order of the change list |
| StakeWindow.Window.constructor | consensus/consensus.go:168-189 | a window read back from stored certificates: in each place the certificate's 64-bit total and the validator's own vote, zero where there is none, totals included |
| StakeWindow.Window.Restore | consensus/consensus.go:168-189 | the loop over the stored certificates, newest first, fills exactly the last places |
| StakeWindow.Window.Update | consensus/status.go:40-56 | shifts both windows for a higher certificate only; the totals stay the sums |
| StakeWindow.Window.Adopt | consensus/driver.go:294-296 | adopting a certificate takes the object from a replica's window to that replica's next window |
| StakeWindow.Window.NextVote | consensus/status.go:58-78 | a random vote keeps the window between half the limit and the limit, and is the vote of the replica whose window the object is |
| StakeWindow.RandomVoteAllowed | consensus/status.go:63-78 | above height 50, or with 3*limit+3 in 64 bits, for every window and random number: no division by zero, total between half the limit rounded up and the limit |
| StakeWindow.HugeLimit | consensus/status.go:68-76 | for every other limit some random number makes a first vote exceed it, fall short of half, or divide by zero |
| StakeWindow.RandomRuleExact | consensus/status.go:63-78 | the two together: the random rule is right for every window and every random number if and only if the height is above 50 or 3*limit+3 is in 64 bits |
| StakeWindow.AverageFits | consensus/status.go:59-62 | the average rule votes the largest amount that fits a whole window long into the limit |
| StakeWindow.Window.QuotaCount | consensus/status.go:178-183 | votes at hand plus the window without its oldest entry |
| StakeWindow.FindVote | core/quorum_cert.go:120-128 | the signer's own quota, zero if absent |
| StakeWindow.AddUp | core/quorum_cert.go:80-83 | a certificate's total in 64-bit arithmetic |
| StakeWindow.TotalIsShares | core/quorum_cert.go:97-118 | a certificate's total is the sum of what each validator finds of its own |
| StakeRun.SumTotals | core/quorum_cert.go:97-118 | over any certificates, adding totals certificate by certificate or own votes validator by validator gives the same |
| StakeRun.StepInv | consensus/driver.go:286-298 | each replica with a window of its own: any vote by the rule, any vote at all of those who do not keep to it, and any adoption of any certificate made of cast votes keep every window the sum of its certificates, and those of the others within their limits |
| StakeRun.InitInv | consensus/genesis.go:109-110 | so do the first windows, set up from certificates for the genesis block, in which everyone who keeps to the rule votes half of the stake, rounded up |
| StakeWindow.LeastVote | consensus/status.go:63-78 | the random rule never votes less than what is missing to half of the limit, above height 50 to the limit, and votes just that with the random number 0 |
| StakeRun.FullVoteExact | consensus/driver.go:270-276 | a leader can count on a majority, whatever the random numbers, if and only if the least votes reach it on top of the leader's window |
| StakeRun.FullVoteReachesMajority | node/role_store.go:74-76 | when all keep to the rule, the voters' last certificates but the oldest are the leader's and all vote, the leader's count is at least the majority quota and at most the total stake, whatever votes those certificates missed |
| StakeRun.MajorityIsHalf | node/role_store.go:74-76 | the majority quota is the least that is at least half of the total stake |
| StakeRun.CountBounded | consensus/status.go:178-183 | out of step too, the count is at most the window's size times the total stake |
| StakeRun.Count | consensus/status.go:178-183 | what the leader's object counts is this count in 64 bits, and the count itself as long as it fits |
| StakeRun.WindowsStaySound | consensus/status.go:40-78 | over every run from genesis, in whatever order replicas vote, adopt and skip certificates and others vote what they like, no window of a validator that keeps to the rule exceeds its limit, and a leader can count on a majority exactly when the least votes reach it; in step with a leader they do |
| StakeWindowSkip.SkippedCertificateFallsShort | consensus/status.go:40-78 | it can fail: a state reachable from genesis, of four equal stakes, in which one replica skipped a certificate and a full vote counts 12 of the 16 required |
| StakeWindowSkip.UnlinkedVoteBreaksLimit | consensus/status.go:40-78 | votes by the rule for blocks further ahead than the next would break the limit: from a window reachable from genesis two of them together exceed it |
| TxQueue.RootEarliest | txpool/txstore.go:46-48 | in heap order the root is the earliest |
| TxQueue.TxStore.Swap | txpool/txstore.go:50-54 | exchanges two items and their places |
| TxQueue.TxStore.Enqueue | txpool/txstore.go:56-61 | a known item joins; heap order and places hold |
| TxQueue.TxStore.Dequeue | txpool/txstore.go:63-71 | takes an item not later than any queued one |
| TxQueue.TxStore.RemoveAt | txpool/txstore.go:144-155 | takes out the item at a place; heap order and places hold |
| TxQueue.TxStore.AddNewTx | txpool/txstore.go:87-97 | queues a new transaction, leaves a known one alone |
| TxQueue.TxStore.PopTxsFromQueue | txpool/txstore.go:99-113 | the k earliest queued transactions, earliest first, none twice, put-back ones included; exactly they leave the queue |
| TxQueue.TxStore.PutTxsToQueue | txpool/txstore.go:131-142 | known transactions that are not queued join again |
| TxQueue.TxStore.SetTxsPending | txpool/txstore.go:144-155 | the given transactions leave the queue and stay known |
| TxQueue.TxStore.RemoveTxs | txpool/txstore.go:157-169 | the given transactions are forgotten |

## Left out

- Genesis agreement, block sync from peers, restart, validator-set changes: the agreement theorem is about a fixed validator set that starts from genesis.
- Quorum.Validate: the grace counter lowers the threshold by one, so the majority clause is stated for grace 0; agreement assumes no grace period.
- ReplicaObject.Driver.UpdateQCHigh: the stake window that the same function moves is in `StakeWindow`.
- ReplicaObject.Driver.OnReceiveVote: whether the quota suffices is a parameter here; the quota arithmetic is in `StakeWindow`.
- ReplicaObject.Driver.OnReceiveProposal: the checks of a block's transactions, Merkle root and execution height are one parameter, `ok`; a restriction on voting can only remove votes.
- Progress.LeaderDelivers: says that such a run exists; that timers bring it about, after a view change too, needs timing assumptions that are not modelled, nor is the 32-bit width of views.
- `TwoPhaseBFTFlag`, `OrdinaryVote`, `MonopolyVote`: experiment switches.
- Chaincode that times out, EVM chaincode and the role chaincode inside serial equivalence: they share state outside the trackers.
- MergeSignal.AllMergedInOrder: the emitter's subscriptions and channels are values of a step system here, not objects.
- MemDBStore.MemDB.Put: the byte count `kvSize` and slice capacities are not modelled; the random height is a parameter.
- MemDBStore.MemDB.DeepClone: the arrays are sequence values here, so that a clone shares no slice with its original holds by construction.
- Iterators.DbIter.Next: `Last`, `Prev` and `Seek` are not modelled, nor is release of an iterator.
- CacheStore.CacheDB.NewIterator: the backend's own iterator is a sorted snapshot of its entries.
- CacheStore.CacheDB.Get: the sticky error field of the cache is not modelled.
- StateStore.StateDB.Suicide: balances live behind another interface and are not part of a snapshot, so they are not modelled.
- Refund.RefundNeverNegative: the counter has 64 bits, so the run is bounded to fewer than 2^64 / 24000 steps. `CommitToCacheDB` is a step only as part of `Commit`, its one caller; `Refund.CleaningAloneSolvent` says when it may stand alone.
- EvmGas.EveryStepCosts: only the Istanbul table, which the default configuration activates; the older tables and the subroutine opcodes are not modelled. The constants of the table are data, taken over opcode by opcode; no theorem states them a second time.
- Interpreter.Run: what an instruction computes, the program counter, storage effects, tracing and return data are left to the tape; precompiled contracts are a cost and an outcome.
- JumpAnalysis.Contract.IsCode: the code hash is taken to be injective.
- MerkleTree.Tree.Update: the height is unbounded here; the code keeps it in 8 bits. Worker channels appear as an arbitrary order of results.
- StateStorage.Storage.Commit: indexes are numbers here; their big-endian bytes round-trip by `MerkleSpec.PositionRoundTrip`. Block, transaction and height records and crash atomicity of the database are not modelled.
- StakeRun.WindowsStaySound: honest stakes s have 3s + 3 below 2^64; a voter has adopted the certificate its block carries, which `OnReceiveProposal` does before it votes; a replica that restarts and reads its window back is not a step.
- StakeRun.FullVoteExact: those who do not keep to the rule vote at most their stake in the full vote; receivers do not check quotas against stakes, and a larger vote can wrap the 64-bit count.
- TxQueue.TxStore.AddNewTx: the clock is a parameter; `getTxsFromQueue`, which peeks at heap slots, and the status getters are not modelled.
- Networking, the HTTP interface, cryptography, protobuf, native contracts and codecs: plumbing, or only easy members.
