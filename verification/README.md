# Verified models of sei-cosmos

This project models four parts of sei-cosmos in Dafny 4.11 and proves what they are for. `dafny verify dfyconfig.toml`
checks all of it.

**The optimistic transaction scheduler** (`tasks/scheduler.go` with `store/multiversion`). Transactions run
speculatively against a multi-version memory, their recorded reads are validated by value, invalid ones run again, and
after ten passes the rest runs in order. A transaction is a deterministic program that reads, writes and finishes. Every
read, every published key, every check of a recorded read, every invalidated entry and every look at a dependency is
one atomic step; the loops of `Scheduling.Scheduler` let any worker move next, so their contracts hold for every
interleaving. `SchedulerRuns` states the same over explicit runs, and `SchedulerTrace` and `SchedulerAlone` say in full
what an execution and a validation leave that nobody interrupts. The read-set check compares with `bytes.Equal`, for
which nothing and the empty value are equal. So serializability fails where a key can be both absent and empty, and
`SchedulerEmptyValues.SerializableExactly` says that this is the only reason. Every batch ends within the same number
of passes, and with a result that is sequential up to this confusion. The comment in `ProcessAll` speaks of the maximum
incarnation; the code switches to synchronous mode by the number of passes, and the model follows the code.

**ICS 23 proofs** (`ics23/`). Soundness, completeness, position binding and freedom from panics are proved for
`IavlSpec` against an explicit binary tree with the IAVL node layout. SHA-256 is a parameter with 32-byte results. No
such function is injective, so the theorems ask only that nothing collides among the finitely many strings that are
hashed for the tree and for the proof. The protobuf codec is modelled down to the buffer that is filled from the back;
`Ics23Grammar`, `Ics23Messages` and `Ics23Canonical` say which strings it accepts and writes without naming it.
Compression is modelled down to the shared table with its 32-bit indices. When a step of a proof gives a result that
is too long, `calculate` returns neither a root nor an error; the model has that case.

**Snapshots** (`snapshots/`). The chunk writer and reader, the store with its ordered keys and pruning, and the
manager with its restore protocol. `SnapshotRuns` has every interleaving of the manager's calls, and a pipeline from
the stream that one node writes to the stream that another reads. When a chunk cannot be read, `Save` removes the
directory of the whole height, so the files of other formats at that height go too; `SnapshotStore.Store.Save` states
this, and `SnapshotStore.BrokenSaveTakesOthers` is such a case. A snapshot without chunks has no directory, so that
pruning it deletes it and then fails (`SnapshotStore.PruneWithoutChunks`); `SnapshotStore.Store.Prune` states exactly
when. A store is tidy when the snapshots and nothing else have files; the contracts say what keeps it so. `Restore`
compares the number of hashes modulo 2^32, and `SnapshotWrap` says what becomes of a restore with more.

**Coins and decimals** (`types/coin.go`, `types/decimal.go`). The merge loops over coin sets and their algebra, and
fixed-point numbers with banker's rounding, their text form and their sortable form. `Add` promises a valid result;
that holds for valid sets, and `CoinColumns.SumValidExactly` says when it holds for all others that pass the test for
order, which lets a denomination occur again. `Quo` does not always round to the nearest, and
`DecimalArith.QuoNearestExactly` says when it does. `NewDecFromStr` accepts a second sign, and a sign in place of the
whole part; `DecimalText.WellFormed` is the exact grammar.

Panics are results in the models: `None`, `Panicked` or `Crashed`.

## Model

| member | source | states |
|---|---|---|
| `Scheduling.Scheduler.ProcessAll` | tasks/scheduler.go:272-337 | for every batch of deterministic transactions and every interleaving of the workers: the loop ends with every task validated, after at most 11 passes, synchronous in the eleventh and only there, and, if there are transactions, after fewer than twice their number; responses and store are those of running the transactions one by one, each on what the one before it left, up to the confusion of nothing and empty; where no key can be both absent and empty they are exactly the sequential ones |
| `Scheduling.Scheduler.Pass` | tasks/scheduler.go:299-327 | for every batch: no pass touches a task of the longest validated prefix; the task after it gets validated if it was ready and ready if it waited, so the prefix grows every two passes; a synchronous pass validates everything left |
| `Scheduling.Scheduler.ExecuteConcurrently` | tasks/scheduler.go:434-457 | however the executions interleave they end, every chosen task is executed or aborted, all others are as they were, and the first task above the settled prefix ran with what the prefix leaves of the store |
| `Scheduling.Scheduler.ExecuteInOrder` | tasks/scheduler.go:522-563 | in synchronous mode every task from the first not validated one on runs, in order, with what the tasks below it leave of the store |
| `Scheduling.Scheduler.ExecuteAll` | tasks/scheduler.go:434-457 | in either mode every task handed over is executed or aborted, the validated prefix is as it was, and the tasks that ran right above it have the reads of what the tasks below them leave: the first one if it was ready, all of them in synchronous mode; otherwise nothing that was not handed over changes |
| `Scheduling.Scheduler.ValidateAll` | tasks/scheduler.go:396-431 | for every batch, however the validations interleave they end; everything validated is settled, no estimate stays below, no task stays aborted, the next task is pending or waits, the rerun list is the pending tasks, and tasks that ran with what the tasks below them leave stay validated |
| `Scheduling.Scheduler.ExecuteStep` | tasks/scheduler.go:517-563 | the step that the worker takes is one of the atomic steps of an execution, for its place in executeTask |
| `Scheduling.Scheduler.ValidateStep` | tasks/scheduler.go:339-385 | the step that the worker takes is one of the atomic steps of a validation, for its place in shouldRerun |
| `Scheduling.Scheduler.CollectResponses` | tasks/scheduler.go:205-214 | one response per task, in order |
| `SchedulerPasses.SettledSequential` | tasks/scheduler.go:329-331 | where no key can be both absent and empty a settled prefix holds the responses, and leaves the store, of the sequential run |
| `SchedulerPasses.SettledOneByOne` | tasks/scheduler.go:272-337 | for every batch a settled memory is the result of running the transactions one by one, each on what the one before it left, up to the confusion of nothing and empty |
| `Scheduling.ValidatingEnds` | tasks/scheduler.go:396-431 | what is left when a validation pass ends: the validated prefix is settled and the next task is pending or waits on validated tasks only |
| `Scheduling.InitialBetween` | tasks/scheduler.go:185-203 | a fresh batch meets the invariant between passes |
| `SchedulerRuns.RunsAreSerializable` | tasks/scheduler.go:272-337 | over all runs of atomic steps, of any length and in any order, with concurrent phases and then synchronous ones, of a batch in which no key can be both absent and empty: a run that ends with every task validated ends with the sequential store and responses |
| `SchedulerRuns.RunsAreOneByOne` | tasks/scheduler.go:272-337 | the same for every batch, up to the confusion of nothing and empty |
| `SchedulerRuns.RunKeeps` | tasks/scheduler.go:272-337 | every moment of every run of every batch meets the invariant of the phase it is in |
| `SchedulerRuns.StepKeeps` | tasks/scheduler.go:339-375 | every atomic step, concurrent or synchronous, keeps the invariant of its phase |
| `SchedulerEmptyValues.EmptyValueBreaksSerializability` | store/multiversion/store.go:335-386 | for every key and every store without it, a run in which a read of nothing passes validation against an empty value, and the response is not the sequential one |
| `SchedulerEmptyValues.SerializableExactly` | store/multiversion/store.go:335-386 | say for each key what it may hold, absence included: all batches that keep to this are serializable in every interleaving if and only if no key may be both absent and empty |
| `SchedulerEmptyValues.SerializableByValues` | store/multiversion/store.go:335-386 | where every key may be absent: all batches over a domain of values are serializable in every interleaving if and only if the domain lacks the empty value |
| `SchedulerPasses.SettledRead` | tasks/scheduler.go:166-183 | above a settled prefix a read returns what the prefix leaves of the store |
| `SchedulerPasses.FinishedSettles` | tasks/scheduler.go:517-563 | a certified task that ran with what a settled prefix leaves extends it |
| `SchedulerPasses.ExecutesOnTrack` | tasks/scheduler.go:517-563 | right above a settled prefix a task never aborts and never reads anything stale |
| `SchedulerPasses.ChangeLeavesEstimate` | tasks/scheduler.go:127-133 | validation changes the memory only by leaving estimates |
| `SchedulerPasses.ValidatesSelf` | tasks/scheduler.go:339-375 | what is known of a task during a pass is kept by its own validation |
| `SchedulerPasses.ValidatesOther` | tasks/scheduler.go:339-375 | what is known of a task during a pass is kept by every other validation, at any moment |
| `SchedulerPasses.ValidationSettles` | tasks/scheduler.go:396-431 | after a pass everything validated is settled, although the pass checked reads while others invalidated theirs |
| `SchedulerPasses.ValidatesPassing` | tasks/scheduler.go:362-366 | a task with the reads of what a settled prefix leaves passes, in every interleaving |
| `SchedulerPasses.ValidatesResuming` | tasks/scheduler.go:370-372 | a task that waits on validated tasks only becomes ready, so nothing waits forever |
| `SchedulerAlone.DecidesAlone` | tasks/scheduler.go:339-385 | shouldRerun in full where no other worker moves: from the status, the recorded reads, the memory below and the dependencies it follows what becomes of status, entries, read set and dependencies, and nothing else changes |
| `SchedulerTrace.RunsAlone` | tasks/scheduler.go:517-563 | executeTask in full where no other worker moves: the transaction gets its own last writes and else what the memory below holds; it ends executed, with its response, the reads it made and its last writes as entries, or aborted at a read under an estimate, with that writer as a dependency and estimates for what it wrote |
| `SchedulerSafety.FaithfulGet` | tasks/scheduler.go:540-541 | a recorded read stands for the whole execution up to it on every store that agrees with the recorded reads |
| `SchedulerSafety.FaithfulFinish` | tasks/scheduler.go:540-557 | a finished execution has the response and the writes of running alone on any store that agrees with its recorded reads |
| `SchedulerSafety.StartOk` | tasks/scheduler.go:517-538 | the head of executeTask keeps the invariant of all tasks |
| `SchedulerSafety.AdvanceOk` | tasks/scheduler.go:540-541 | one action of a transaction keeps the invariant, whatever values other workers have published meanwhile |
| `SchedulerSafety.PublishOk` | tasks/scheduler.go:549-562 | publishing key by key keeps the invariant |
| `SchedulerSafety.EndExecuteOk` | tasks/scheduler.go:542-563 | leaving executeTask, executed or aborted, keeps the invariant |
| `SchedulerSafety.CheckKeyOk` | tasks/scheduler.go:166-183 | checking one recorded read keeps the invariant |
| `SchedulerSafety.EndCheckOk` | tasks/scheduler.go:350-368 | the outcome of a check keeps the invariant |
| `SchedulerSafety.InvalidateKeyOk` | tasks/scheduler.go:127-133 | turning one entry into an estimate keeps the invariant |
| `SchedulerSafety.EndAwaitOk` | tasks/scheduler.go:354-361 | deciding between rerun and waiting keeps the invariant |
| `SchedulerSteps.FirstNonValidated` | tasks/scheduler.go:387-394 | the first task that is not validated: all before it are, and it is not |
| `MultiVersion.CheckReadExact` | store/multiversion/store.go:335-386 | a recorded read is accepted without conflict exactly when a fresh read gives the same value, up to the confusion of nothing and empty; it is accepted with a conflict on exactly the writer of an estimate that a fresh read would run into |
| `MultiVersion.CheckReadAll` | store/multiversion/store.go:335-386 | the verdict on one recorded read in full, from the latest entry alone: when it stands and with whom it conflicts |
| `MultiVersion.Latest` | store/multiversion/data_structures.go:84-101 | the greatest lower index with an entry for the key |
| `MultiVersion.OverlayWrite` | store/multiversion/store.go:142-162 | writing a key and then laying the write set over a store is laying the longer write set over it |
| `MultiVersionStore.Store.GetLatestBeforeIndex` | store/multiversion/store.go:83-97 | the latest entry below an index, agreeing with the view by transaction |
| `MultiVersionStore.Store.RemoveOldWriteset` | store/multiversion/store.go:112-139 | entries that the new write set does not name are gone, nothing else changed |
| `MultiVersionStore.Store.SetWriteset` | store/multiversion/store.go:142-162 | the index holds exactly the items of the write set, other indices are as they were |
| `MultiVersionStore.Store.SetEstimatedWriteset` | store/multiversion/store.go:180-194 | the index holds exactly estimates for the keys of the write set, other indices are as they were |
| `MultiVersionStore.Store.InvalidateWriteset` | store/multiversion/store.go:165-177 | every entry of the index is an estimate now, other indices are as they were |
| `MultiVersionStore.Store.ValidateTransactionState` | store/multiversion/store.go:335-386 | valid exactly when every recorded read stands, said from the latest entry below and the parent store alone: an estimate, a tombstone where nothing was recorded, an equal value, or without an entry an equal parent value; the conflicts are exactly the writers of estimates and of entries with which a read does not stand |
| `MultiVersionStore.Store.WriteLatestToStore` | store/multiversion/store.go:399-435 | the parent store becomes the one the entries of all indices, applied in order, leave |
| `MultiVersionStore.LatestInVersions` | store/multiversion/data_structures.go:84-101 | the search among the versions of one key finds what the view by transaction has |
| `MultiVersionStore.FlushAt` | store/multiversion/data_structures.go:60-82 | the latest entry that is no estimate is what applying all entries in order leaves for a key |
| `IavlMembership.MembershipSound` | ics23/proof.go:91-145 | an existence proof accepted under IavlSpec for the root of an IAVL-shaped tree proves a leaf with exactly that key and value |
| `IavlMembership.VerifyMeans` | ics23/proof.go:91-145 | acceptance under IavlSpec is: the checks pass and the path of SHA-256 steps from the leaf reaches the root |
| `IavlMembership.VerifyExactly` | ics23/proof.go:91-145 | acceptance under IavlSpec in full, without the checks themselves: key and value are those asked for and not empty, leaf and steps have the IAVL form with heights that grow with the layer, and the SHA-256 steps from the leaf reach the root |
| `IavlMembership.DomainSeparation` | ics23/ops.go:90-151 | the first byte of what a node hashes tells leaves from inner nodes |
| `IavlMembership.InnerStep` | ics23/ops.go:22-56 | an inner operation that passes the checks and hashes what a node hashes is the step from its left or its right child |
| `IavlMembership.LeafStep` | ics23/ops.go:59-77 | a leaf operation that passes the checks and hashes what a node hashes belongs to that leaf, with that key and the hash of that value |
| `IavlMembership.ProofClimbs` | ics23/proof.go:121-145 | a checked path that hashes to the root climbs from a leaf of the tree, turn by turn |
| `IavlCompleteness.MembershipComplete` | ics23/proof.go:184-208 | for every IAVL-shaped tree, whatever heights its nodes state: the proof read off for any leaf is accepted if and only if key and value are not empty, the header is at most 11 bytes wherever the path turns right, and every node on the path states a height of at least its layer |
| `IavlCompleteness.PathChecks` | ics23/ops.go:119-150 | the path read off any IAVL-shaped tree passes the check of every layer if and only if headers are short at right turns and every node states a height of at least its layer |
| `IavlCompleteness.ClimbPath` | ics23/proof.go:121-145 | the path read off a tree recomputes the root |
| `IavlNonMembership.NonMembershipSound` | ics23/proof.go:212-259 | a non-existence proof accepted for the root of an ordered tree disproves the key: left-most, right-most and neighbour cases |
| `IavlNonMembership.LeftMostIsLeast` | ics23/proof.go:262-272 | a path that passes IsLeftMost starts at the least key |
| `IavlNonMembership.RightMostIsGreatest` | ics23/proof.go:275-288 | a path that passes IsRightMost starts at the greatest key |
| `IavlNonMembership.NeighborsHaveNothingBetween` | ics23/proof.go:294-318 | two paths that pass IsLeftNeighbor start at leaves with no key between them |
| `IavlNonMembership.StrippingIsSafe` | ics23/proof.go:294-318 | the stripping loop never indexes an exhausted path when both proofs verify against one root and the keys are in order, from collision freedom of what the two proofs hash alone |
| `IavlNonMembership.VerificationNeverPanics` | ics23/proof.go:212-333 | verification of a non-existence proof against the root of any IAVL-shaped tree does not panic, whatever the proof |
| `IavlNeighbors.NonExistenceExactly` | ics23/proof.go:212-259 | acceptance of a non-existence proof under IavlSpec in full: the left side proves a smaller key and the right side a greater one; with both sides the paths are neighbours, with one it turns outwards nowhere |
| `IavlNeighbors.NeighborExactly` | ics23/proof.go:294-333 | two paths are accepted as neighbours exactly if they share the steps near the root, part by a left and a right turn, and go on along the inner edges; it panics exactly if one path is the tail of the other or a parting step has no turn |
| `IavlNeighbors.SplitExactly` | ics23/proof.go:294-305 | where the stripping loop stops: at the first step from the root in which the paths differ, or nowhere |
| `IavlNeighbors.MostExactly` | ics23/proof.go:262-288 | a path is left-most exactly if every step turns left, right-most exactly if every step turns right |
| `IavlAbsence.NonMembershipComplete` | ics23/proof.go:212-259 | for every ordered IAVL-shaped tree, whatever heights its nodes state: the proof made of the neighbours of an absent key is accepted if and only if both neighbours can be read, headers are at most 11 bytes where their paths turn right, stated heights are at least the layers, and headers are also short at the left turns of the upper path below the split, or on all of it if no key is smaller |
| `IavlAbsence.PlainTreesAreProvable` | ics23/proof.go:212-259 | in a tree without empty keys or values, with short headers and true heights, the neighbours prove every absent key |
| `IavlAbsence.PositionBinding` | ics23/proof.go:91-115 | a key cannot be proved with two values against one root |
| `IavlAbsence.PresentIsNotAbsent` | ics23/proof.go:91-259 | a key proved present cannot be proved absent against one root |
| `IavlWitness.MembershipIsNotVacuous` | ics23/proof.go:91-145 | the assumptions of membership soundness are met by a tree of two leaves, a hash and an accepted proof of either leaf |
| `IavlWitness.NonMembershipIsNotVacuous` | ics23/proof.go:212-259 | the assumptions of non-membership soundness are met by a tree of two leaves, a hash and an accepted neighbour proof of a key between them |
| `Ics23Proof.CalculateRoot` | ics23/proof.go:121-145 | the loop computes the fold of the steps over the leaf hash, including failed and oversize steps |
| `Ics23Proof.CalculateExactly` | ics23/proof.go:121-145 | the root is r exactly if a chain of hashes leads from the leaf to r, one step of the path each, none too long |
| `Ics23Proof.OversizeExactly` | ics23/proof.go:121-145 | neither root nor error is returned exactly if some step gives a result that is too long and all before it do not |
| `Ics23Proof.CheckLayers` | ics23/proof.go:184-208 | the loop over the layers accepts exactly the paths of which every step passes for its layer |
| `Ics23Proof.StripCommonTail` | ics23/proof.go:294-305 | the loop finds the split of the two paths below the steps they share near the root, and says when a path runs out |
| `Ics23Proof.OrderFromPadding` | ics23/proof.go:430-440 | the branch found has the padding of that branch, and none is found exactly if no branch has it |
| `Ics23Ops.CheckIavlPrefix` | ics23/ops.go:22-56 | accepts exactly the prefixes that are three varint texts of numbers that are not negative, the first at least the layer, followed by nothing or else by 1 or 34 bytes, for SHA-256 |
| `Ics23Ops.CheckLeafExactly` | ics23/ops.go:90-117 | the leaf operations that pass under IavlSpec, in full |
| `Ics23Ops.CheckInnerExactly` | ics23/ops.go:120-151 | the inner operations that pass under IavlSpec at a layer, in full, with the bound of the height by the layer |
| `Varint.EncodeVarintProto` | ics23/proof.go:48-58 | the loop gives the base-128 encoding |
| `Varint.ScanEncode` | ics23/proof.go:48-58 | decoding inverts encoding, whatever follows |
| `Varint.EncodeCut` | ics23/proof.go:48-58 | no encoding is a proper prefix of another, so a stream is cut in one way only |
| `Ics23Wire.InnerRoundTrip` | ics23/proofs.pb.go:3104-3240 | decoding an encoded InnerOp gives it back |
| `Ics23Wire.LeafRoundTrip` | ics23/proofs.pb.go:2944-3103 | decoding an encoded LeafOp gives it back |
| `Ics23Wire.ExistenceRoundTrip` | ics23/proofs.pb.go:2410-2597 | decoding an encoded ExistenceProof gives it back, with its leaf and its path |
| `Ics23Messages.InnerExactly` | ics23/proofs.pb.go:3104-3240 | which strings decode to which InnerOp, in full: the sequences of known fields with their wire types and of fields that are not known, the last of a number winning |
| `Ics23Messages.LeafExactly` | ics23/proofs.pb.go:2944-3103 | the same for a LeafOp, merged into any message |
| `Ics23Messages.ExistenceExactly` | ics23/proofs.pb.go:2410-2597 | the same for an ExistenceProof: a second leaf is merged into the first, steps are appended |
| `Ics23Messages.UnknownFieldsIgnored` | ics23/proofs.pb.go:3221-3233 | a field that a message does not have, of any wire type and however nested, changes nothing behind any fields and in front of anything |
| `Ics23Messages.LeavesMerge` | ics23/proofs.pb.go:2519-2543 | two leaves in one proof mean what one leaf with the fields of both means |
| `Ics23Grammar.SkipExactly` | ics23/proofs.pb.go:4465-4543 | the end found for a field is n exactly if the first n bytes are a key with its body, or a group with everything in it up to its own end |
| `Ics23Grammar.UnknownSkips` | ics23/proofs.pb.go:4465-4543 | every unknown field, groups nested to any depth included, is skipped exactly |
| `Ics23Canonical.InnerWritten` | ics23/proofs.pb.go:1517-1542 | what is written for an InnerOp, in full: its fields in ascending order, none of them zero or empty, with numbers in the shortest form |
| `Ics23Canonical.LeafWritten` | ics23/proofs.pb.go:1467-1500 | the same for a LeafOp |
| `Ics23Canonical.ExistenceWritten` | ics23/proofs.pb.go:1234-1280 | the same for an ExistenceProof, in which only the steps of the path repeat a number, and a leaf or a step may be empty |
| `Ics23Marshal.SovIsLength` | ics23/proofs.pb.go:2404-2406 | the size from the bit length is the length of the varint |
| `Ics23Marshal.SizeInnerIsLength` | ics23/proofs.pb.go:2172-2190 | Size of an InnerOp is its length on the wire |
| `Ics23Marshal.SizeLeafIsLength` | ics23/proofs.pb.go:2147-2170 | Size of a LeafOp is its length on the wire |
| `Ics23Marshal.SizeExistenceIsLength` | ics23/proofs.pb.go:2039-2064 | Size of an ExistenceProof is its length on the wire |
| `Ics23Marshal.EncodeVarintProofs` | ics23/proofs.pb.go:2028-2038 | the varint is written so that it ends at the offset, the rest of the buffer is as it was |
| `Ics23Marshal.MarshalInnerTo` | ics23/proofs.pb.go:1517-1542 | the message is written back to front so that it ends at the end of the buffer, in exactly Size bytes, and nothing else changes |
| `Ics23Marshal.MarshalLeafTo` | ics23/proofs.pb.go:1467-1500 | the same for a LeafOp |
| `Ics23Marshal.PutPath` | ics23/proofs.pb.go:1239-1253 | the loop over the path, last step first, leaves the steps in order |
| `Ics23Marshal.MarshalExistenceTo` | ics23/proofs.pb.go:1234-1280 | the same for an ExistenceProof |
| `Ics23Marshal.MarshalInner` | ics23/proofs.pb.go:1502-1510 | Marshal fills its buffer exactly |
| `Ics23Marshal.MarshalLeaf` | ics23/proofs.pb.go:1452-1460 | Marshal fills its buffer exactly |
| `Ics23Marshal.MarshalExistence` | ics23/proofs.pb.go:1219-1227 | Marshal fills its buffer exactly |
| `Ics23Unmarshal.DecodeVarint` | ics23/proofs.pb.go:2416-2430 | the loop reads what the varint decoder reads, wraps at 64 bits and fails on more than ten bytes or a missing end |
| `Ics23Unmarshal.SkipProofs` | ics23/proofs.pb.go:4465-4543 | the loop over nested groups ends at n exactly if the first n bytes are one field with everything nested in it, and fails if there is no such n |
| `Ics23Unmarshal.UnmarshalInner` | ics23/proofs.pb.go:3104-3240 | on every input the loop fails or gives the message that the fields of the input make up, unknown ones left out; it fails exactly if the input is no sequence of fields |
| `Ics23Unmarshal.UnmarshalLeaf` | ics23/proofs.pb.go:2944-3103 | the same for a LeafOp, merged into a message that may hold fields already |
| `Ics23Unmarshal.UnmarshalExistence` | ics23/proofs.pb.go:2410-2597 | the same for an ExistenceProof |
| `Ics23Compress.MarshalInjective` | ics23/proofs.pb.go:1517-1542 | different inner operations marshal to different strings |
| `Ics23Compress.RoundTripExactly` | ics23/compress.go:38-157 | decompressing a compressed batch gives it back if and only if it has at most 2^31 distinct steps |
| `Ics23Compress.Compressor.CompressStep` | ics23/compress.go:91-108 | a step gets the index of its only place in the table, new steps go to the end, indices given before stay right |
| `Ics23Compress.Compressor.CompressExist` | ics23/compress.go:75-89 | every step of the path becomes its index in the table |
| `Ics23Compress.Compressor.CompressEntry` | ics23/compress.go:54-73 | both sides of a non-existence proof share the table; a blank entry panics |
| `Ics23Compress.CompressBatch` | ics23/compress.go:38-52 | the table is the distinct steps in order of first occurrence, and all entries index that final table |
| `Ics23Compress.DecompressExist` | ics23/compress.go:143-157 | the path is looked up step by step; an index outside the table panics |
| `Ics23Compress.DecompressBatch` | ics23/compress.go:110-123 | every entry is decompressed or the whole panics |
| `Ics23Compress.DistinctHolds` | ics23/compress.go:91-108 | the table holds every step that occurs, none twice |
| `Ics23Compress.FirstOccurrence` | ics23/compress.go:91-108 | a step that occurs for the first time gets the number of distinct steps before it |
| `Ics23Compress.EntriesIndexed` | ics23/compress.go:54-89 | every compressed entry has the key, value and leaf of its entry, side by side, and indices at which the table holds its steps |
| `Ics23Compress.DecompressExactly` | ics23/compress.go:110-157 | decompression returns exactly the entries with the same keys, values and leaves and with the steps that the indices name; it panics exactly if an index names none |
| `Ics23Batch.CompressRoundTrip` | ics23/compress.go:11-36 | Decompress undoes Compress exactly for proofs without blank entries and at most 2^31 distinct steps |
| `Ics23Batch.Idempotent` | ics23/compress.go:8-36 | Compress and Decompress leave their own results alone |
| `Ics23Batch.CompressionKeepsVerdicts` | ics23/ics23.go:37-62 | compression changes no membership or non-membership verdict |
| `Ics23Batch.CombineProofs` | ics23/ics23.go:96-133 | the combination is the compressed batch of all entries in order; it is refused exactly if a proof is missing and none before it panics, and it succeeds exactly if all proofs are there, can be decompressed and hold no blank entry |
| `Ics23Batch.FlattenExactly` | ics23/ics23.go:96-133 | the entries of a combination are those of all proofs, one part per proof, in order |
| `Ics23Batch.CombinationVerdict` | ics23/ics23.go:96-133 | the verdict of a combined proof is the verdict of the first of the proofs with an entry for the key, alone, and rejection if there is none |
| `Ics23Batch.AcceptedAfterCombination` | ics23/ics23.go:96-133 | a proof that is accepted alone stays accepted after combination if and only if the first proof with an entry for the key is accepted |
| `Ics23Batch.EarlierEntryShadows` | ics23/ics23.go:96-150 | combining can lose a proof: the combination of an unusable entry for the key and an accepted proof is rejected |
| `Ics23Batch.EarlierBracketShadows` | ics23/ics23.go:96-167 | the same for non-membership: a proof without neighbours is found for every key, and the combination with an accepted proof behind it is rejected |
| `Ics23Batch.GetExistProofForKey` | ics23/ics23.go:135-150 | the first entry with the key |
| `Ics23Batch.GetNonExistProofForKey` | ics23/ics23.go:152-167 | the first entry that brackets the key |
| `Ics23Batch.FirstExistExactly` | ics23/ics23.go:135-150 | the proof found is that of an entry for the key with none before it |
| `Ics23Batch.FirstNonexistExactly` | ics23/ics23.go:152-167 | the proof found is that of an entry that brackets the key with none before it |
| `Ics23Batch.BatchVerifyMembership` | ics23/ics23.go:66-76 | in every order of the items: accepted exactly if every item is accepted alone |
| `Ics23Batch.BatchVerifyNonMembership` | ics23/ics23.go:80-90 | accepted exactly if the proof can be decompressed and every key is accepted; a panic if it cannot; otherwise the first other verdict decides |
| `Ics23Batch.VerifyMembershipSound` | ics23/ics23.go:37-46 | whatever the form of the proof, what VerifyMembership accepts under IavlSpec is a leaf of the tree |
| `Ics23Batch.VerifyNonMembershipSound` | ics23/ics23.go:53-62 | whatever the form of the proof, what VerifyNonMembership accepts under IavlSpec is no key of the tree |
| `IavlBatch.BatchComplete` | ics23/ics23.go:37-133 | one compressed batch answers any list of questions that can be answered one by one: it proves every leaf asked for and disproves every absent key asked for |
| `IavlBatch.AcceptedForBracketed` | ics23/proof.go:212-259 | a non-existence proof accepted for one key is accepted for exactly the keys it brackets |
| `SnapshotChunks.ConcatCut` | snapshots/chunk.go:71-104 | the chunks of a stream make up the stream |
| `SnapshotChunks.CutSizes` | snapshots/chunk.go:71-104 | all chunks have the chunk size but the last, which is not empty |
| `SnapshotChunks.CutIsUnique` | snapshots/chunk.go:71-104 | there is no other way to cut a stream so |
| `SnapshotChunks.ChunkWriter.Write` | snapshots/chunk.go:72-104 | the chunks stay those of the whole stream however it is split into writes; after Close nothing is written |
| `SnapshotChunks.ChunkWriter.Close` | snapshots/chunk.go:43-54 | the channel and the last chunk are closed once, the stream is as it was, also behind CloseWithError |
| `SnapshotChunks.ChunkWriter.CloseWithError` | snapshots/chunk.go:57-69 | the error goes to the last chunk, or to an empty one made for it, and the writer can still be closed |
| `SnapshotChunks.ChunkReader.Read` | snapshots/chunk.go:143-160 | in full: drained and closed chunks are passed over; the piece comes off the first chunk that has something left, an error exactly if the chunk in front is drained and broken with that error, the end exactly if all are used up |
| `SnapshotChunks.ReadAll` | snapshots/chunk.go:118-160 | reading to the end gives all chunks together, whatever pieces the pipes hand out |
| `SnapshotChunks.WriteAll` | snapshots/chunk.go:28-104 | for every sequence of writes the chunks depend on the whole stream only |
| `SnapshotChunks.WriteThenRead` | snapshots/chunk.go:28-160 | the reader returns the written stream |
| `SnapshotManager.Manager.Begin` | snapshots/manager.go:109-125 | an operation begins exactly when none is in progress |
| `SnapshotManager.Manager.End` | snapshots/manager.go:127-144 | the operation ends, an open channel is closed, the invariant holds |
| `SnapshotManager.Manager.Restore` | snapshots/manager.go:251-300 | a restore begins exactly on a number of chunks that is not zero and equals the number of hashes modulo 2^32, format 1, a height from 1 to 2^63 - 1 and an idle manager, with a new channel for these hashes |
| `SnapshotManager.Manager.RestoreChunk` | snapshots/manager.go:340-388 | in full, from the state alone: without a restore or with another hash nothing changes and it fails; a report that came early stops the restore with its error; an expected chunk is sent, and if one was missing the restore stops, with true exactly if the goroutine completed without an error |
| `SnapshotManager.TrueMeansComplete` | snapshots/manager.go:374-386 | true leaves the manager idle, all chunks sent in order, each with its hash, and the channel closed |
| `SnapshotManager.ForwardedOk` | snapshots/manager.go:362-387 | sending a chunk with the expected hash keeps the order of hashes and ends the restore exactly at the last one |
| `SnapshotRuns.RunsAreSafe` | snapshots/manager.go:109-388 | at every point of every interleaving of Create, Prune, Restore and RestoreChunk: at most one operation, no enabled call panics, no channel closed twice, only the channel of a restore under way open, and what was sent on every channel matches its hashes in the order of the 32-bit counter, which is a prefix of them if there are fewer than 2^32 |
| `SnapshotWrap.RestoresExactly` | snapshots/manager.go:251-388 | for every snapshot that Restore accepts and of which the chunks are at hand: what is sent stays a prefix of the hashes, and the restore can complete, if and only if there are fewer than 2^32 hashes |
| `SnapshotWrap.CounterStartsOver` | snapshots/manager.go:362-373 | with more hashes a run in which the chunk number 2^32 is checked against the first hash |
| `SnapshotWrap.LongSnapshotIsAccepted` | snapshots/manager.go:251-259 | Restore accepts 2^32 + r hashes with r chunks |
| `SnapshotRuns.StepKeeps` | snapshots/manager.go:109-388 | no call panics and every call keeps the invariant |
| `SnapshotRuns.RunGrows` | snapshots/manager.go:340-388 | a channel only ever gets longer, and once closed it never changes |
| `SnapshotRuns.RestoreAll` | snapshots/manager.go:340-388 | feeding all chunks in order to a goroutine that completes ends with true and all chunks handed over |
| `SnapshotRuns.Pipeline` | snapshots/manager.go:158-388 | what one node writes is what another reads: cut, saved, loaded, fed to the restore and put together |
| `SnapshotRuns.SaveAndLoad` | snapshots/store.go:133-162 | loading what was saved gives the same chunks, and the metadata holds their hashes |
| `SnapshotRuns.Create` | snapshots/manager.go:158-182 | succeeds exactly when no operation is in progress, the height is above every listed snapshot and free, and all chunks can be read; a success adds exactly the new snapshot and its files; the manager is as before; a tidy store without the greatest key stays tidy unless a snapshot without chunks is saved |
| `SnapshotRuns.Prune` | snapshots/manager.go:240-247 | refused while another operation is in progress; otherwise exactly the listed snapshots at the greatest heights stay, with the number removed, and it succeeds exactly when nothing to delete is being saved and the directories can be removed; the manager is as before |
| `SnapshotKeys.DecodeEncode` | snapshots/store.go:323-343 | decodeKey inverts encodeKey |
| `SnapshotKeys.EncodeDecode` | snapshots/store.go:323-343 | a key that decodes is the encoding of what it decodes to |
| `SnapshotKeys.KeyOrder` | snapshots/store.go:336-343 | keys are ordered exactly as height, then format |
| `SnapshotKeys.KeyLayout` | snapshots/store.go:323-343 | a key decodes exactly if it is 13 bytes and starts with 1, and then to the big-endian height and format behind it |
| `SnapshotStore.Store.Prune` | snapshots/store.go:182-219 | exactly the listed snapshots at the greatest heights stay, in all formats, with the number removed; which failures happen, and exactly when; a tidy store stays tidy, and there Prune fails only over the greatest key |
| `SnapshotStore.PruneWithoutChunks` | snapshots/store.go:182-219 | a snapshot saved without chunks: pruning it deletes it and then fails |
| `SnapshotStore.Store.DropOld` | snapshots/store.go:189-207 | the first loop deletes exactly the listed snapshots below the retained heights, or stops at one that is being saved |
| `SnapshotStore.Store.RemoveDirs` | snapshots/store.go:208-217 | the second loop succeeds exactly if every directory is there and empty, and removes no other |
| `SnapshotData.SkipTest` | snapshots/store.go:197-200 | the test on the skip map holds exactly for the retained heights |
| `SnapshotTidy.PrunedDirs` | snapshots/store.go:208-217 | in a tidy store, where the snapshots and nothing else have files, the directories of all pruned heights can be removed if and only if the snapshot with the greatest key, which no iterator reaches, does not share one |
| `SnapshotTidy.TidyWithout` | snapshots/store.go:51-67 | snapshots deleted with their files leave a tidy store |
| `SnapshotTidy.TidySave` | snapshots/store.go:222-306 | a full save keeps the store tidy if and only if there are chunks |
| `SnapshotTidy.TidyBrokenSave` | snapshots/store.go:273-292 | a broken save keeps the store tidy if and only if no snapshot is at its height |
| `SnapshotStore.Store.Save` | snapshots/store.go:222-306 | exact results: refused saves change nothing, a full save files all chunks and records their number, the hash of each and of all together; a broken chunk removes the whole directory of the height; and exactly when a tidy store stays tidy |
| `SnapshotStore.BrokenSaveTakesOthers` | snapshots/store.go:273-292 | a save that breaks takes the chunks of another format at its height with it, and that snapshot stays listed |
| `SnapshotStore.Store.WriteChunks` | snapshots/store.go:257-292 | the loop files the chunks under their numbers and collects their hashes |
| `SnapshotData.SavedIsLoaded` | snapshots/store.go:133-162 | what was saved is what is loaded, whatever files were there before |
| `SnapshotStore.Store.Delete` | snapshots/store.go:51-67 | refused while the height is being saved, otherwise that snapshot and its files are gone and nothing else, the directory of the height included; a tidy store stays tidy |
| `SnapshotStore.Store.GetLatest` | snapshots/store.go:92-109 | the newest snapshot of those listed, or none exactly if there are none |
| `SnapshotStore.Store.List` | snapshots/store.go:112-129 | exactly the listed snapshots, newest first |
| `Coins.Validate` | types/coin.go:217-262 | accepts exactly the ascending sets of positive coins with valid denominations, each once |
| `Coins.DenomPattern` | types/coin.go:779-813 | a denomination is valid exactly if it is a letter and 2 to 127 letters, digits, slashes or dashes |
| `Coins.IsSorted` | types/coin.go:264-271 | the loop finds every descent between neighbours |
| `Coins.RemoveZeroCoins` | types/coin.go:730-751 | both loops together filter the zeros, in order |
| `Coins.WithoutZerosConcat` | types/coin.go:730-751 | zeros are left out of the parts of a set separately, so the order of the others is kept |
| `Coins.WithoutZerosOne` | types/coin.go:730-751 | a coin is left out exactly if its amount is zero |
| `Coins.SameTotals` | types/coin.go:164-175 | a set without zeros is determined by its totals |
| `CoinMerge.SafeAdd` | types/coin.go:301-356 | the merge loop computes the sum, and panics exactly on lists out of order |
| `CoinMerge.SumTotals` | types/coin.go:301-356 | for every denomination and all lists the total of the sum is the sum of the totals |
| `CoinMerge.SumValid` | types/coin.go:279-293 | valid sets are in order, so Add returns; the sum is valid and holds the sums of the amounts |
| `CoinColumns.SumValidExactly` | types/coin.go:288-293 | for all lists that Add accepts the sum is valid if and only if every denomination comes out as nothing or as one positive amount of a valid denomination |
| `CoinColumns.SumColumn` | types/coin.go:301-356 | for all lists that Add accepts, with repeated denominations: the amounts of a denomination are added position by position, and the zeros dropped |
| `CoinMerge.SumValidByTotals` | types/coin.go:288-293 | the sum of ascending sets is valid if and only if no total is negative and every denomination with a total is valid |
| `CoinMerge.SortedIsNotEnough` | types/coin.go:264-293 | a denomination that occurs twice passes the test for order, and the sum is not valid |
| `CoinMerge.SafeSub` | types/coin.go:396-399 | the difference, and whether a coin of it is negative |
| `CoinColumns.NegativeExactly` | types/coin.go:393-399 | for all lists that SafeSub accepts a negative is flagged if and only if some amount is less than the amount of its denomination at the same position in the subtrahend |
| `CoinMerge.NegativeByTotals` | types/coin.go:393-399 | on ascending sets a negative is flagged if and only if some denomination falls short |
| `CoinColumns.FlaggedWithoutShortfall` | types/coin.go:393-399 | with a denomination that occurs twice a negative is flagged although no denomination falls short |
| `CoinMerge.Sub` | types/coin.go:384-391 | panics exactly on lists out of order or a negative difference |
| `CoinMerge.DifferenceValid` | types/coin.go:382-391 | the difference of valid sets is valid if and only if it is not flagged |
| `CoinMerge.SubUndoesAdd` | types/coin.go:384-399 | (a + b) - b is a |
| `CoinColumns.SumCommutes` | types/coin.go:291-293 | addition is commutative on all lists that it accepts |
| `CoinMerge.SumAssociates` | types/coin.go:291-293 | addition of ascending sets is associative |
| `CoinColumns.SumAssociatesExactly` | types/coin.go:291-293 | on all lists that it accepts, addition associates if and only if it does in every column |
| `CoinColumns.SumAssociatesWithoutGaps` | types/coin.go:291-293 | it does where neither inner sum drops a zero in front of an amount |
| `CoinColumns.SumDoesNotAssociate` | types/coin.go:291-293 | with a denomination that occurs twice it need not |
| `CoinLattice.Max` | types/coin.go:429-458 | the three loops compute the merged maximum |
| `CoinLattice.Min` | types/coin.go:477-499 | the loop computes the merged minimum |
| `CoinLattice.MaxAndMin` | types/coin.go:414-499 | on valid sets neither panics, both give valid sets with the larger and the smaller amount of each denomination |
| `CoinMaxima.MaxColumn` | types/coin.go:429-458 | on all sorted lists, with repeated denominations: the amounts of a denomination in the maximum are the larger ones position by position, and the rest of the longer column |
| `CoinMaxima.MinColumn` | types/coin.go:477-499 | the same for the minimum, with the smaller ones, only up to the shorter column and without zeros |
| `CoinLattice.LatticeLaws` | types/coin.go:414-476 | Max is the least upper bound and Min the greatest lower bound |
| `CoinLattice.MinPlusMax` | types/coin.go:423-423 | a + b is min(a, b) + max(a, b) |
| `CoinLattice.NewCoinsMeans` | types/coin.go:168-184 | a set from NewCoins is valid and amounts to what it was made from |
| `CoinLattice.NewCoinsAnySort` | types/coin.go:168-184 | the result is the same for every sort by denomination, stable or not |
| `CoinLattice.NewCoinsExactly` | types/coin.go:168-184 | NewCoins returns r exactly if r is a valid set and has just the coins that are not zero; otherwise it panics |
| `CoinLattice.NewCoinsOfValid` | types/coin.go:168-184 | a valid set goes through NewCoins unchanged |
| `CoinLattice.AmountOf` | types/coin.go:636-662 | the amount of the first coin of the denomination, zero if there is none, on all lists; a denomination that is not valid panics |
| `CoinLattice.IsAllGTE` | types/coin.go:529-557 | on all lists: true exactly if the coins of the other list are covered one after the other, a panic exactly if one with an invalid denomination is reached; on valid sets: true exactly if every denomination has at least as much |
| `CoinLattice.CoversPointwise` | types/coin.go:529-545 | looking at the coins of the smaller set is enough to compare all denominations |
| `CoinLattice.IsEqual` | types/coin.go:613-628 | for every way of sorting coins of one denomination: true exactly if the sorted sets are equal, for sets in order exactly if the sets are equal; a panic exactly if the first coins that differ have different denominations |
| `CoinLattice.SubSucceedsExactly` | types/coin.go:384-399 | valid sets are in order, so Sub succeeds exactly on covered sets, and then adding the subtrahend gives the set back |
| `DecimalArith.ChopRoundNearest` | types/decimal.go:504-534 | rounding gives the nearest, ties to even, for all signs |
| `DecimalArith.NearestIsUnique` | types/decimal.go:504-534 | only one number is nearest in this sense |
| `DecimalArith.ChopRoundMonotone` | types/decimal.go:504-534 | rounding keeps order |
| `DecimalArith.MulExactly` | types/decimal.go:254-260 | the product is r exactly if r is the nearest to the exact product, ties to even, and has at most 315 bits; otherwise it panics |
| `DecimalArith.MulMonotone` | types/decimal.go:254-260 | multiplying with a factor that is not negative keeps order |
| `DecimalArith.QuoTruncateExactly` | types/decimal.go:301-311 | the truncated quotient is r exactly if the divisor is not zero, r is the exact quotient truncated once, and r has at most 315 bits; otherwise it panics |
| `DecimalArith.QuoErrorBound` | types/decimal.go:288-298 | the quotient is less than half a last-place unit and 10^-18 units off |
| `DecimalArith.QuoExactly` | types/decimal.go:288-298 | the quotient is r exactly if the divisor is not zero, r is the nearest, ties to even, to the quotient truncated after 18 further digits, and r has at most 315 bits; otherwise it panics |
| `DecimalArith.QuoNearestExactly` | types/decimal.go:288-298 | the quotient is the nearest, ties to even, if and only if the chopped digits are not exactly one half with a remainder lost and an even quotient in front |
| `DecimalArith.QuoIsNotNearest` | types/decimal.go:288-298 | an input on which the quotient is not the nearest |
| `DecimalArith.ChopPrecisionAndRound` | types/decimal.go:500-534 | rounds its argument in place and returns it |
| `DecimalArith.MulDec` | types/decimal.go:254-260 | a new decimal with the nearest product, or the panic exactly if that has more than 315 bits; the operands are not changed although rounding works in place |
| `DecimalText.String` | types/decimal.go:423-473 | the buffer holds the whole part, the point and 18 decimals |
| `DecimalText.TextExactly` | types/decimal.go:423-473 | the text of a decimal in full: a minus if it is negative, the whole part without leading zeros, the point and 18 decimals that together write its absolute value |
| `DecimalText.ParseText` | types/decimal.go:151-204 | parsing the printed text gives the decimal back, for every decimal in range |
| `DecimalText.ParseWritten` | types/decimal.go:151-204 | every well-formed literal is parsed to the number it writes, or refused as out of range |
| `DecimalText.ParseAccepts` | types/decimal.go:151-204 | every accepted string is a well-formed literal |
| `DecimalText.TextIsCanonical` | types/decimal.go:151-204 | an accepted string and the text printed for it write the same number |
| `DecimalSort.MaxSortableIs` | types/decimal.go:624-626 | the bound is the quotient of one and the smallest decimal |
| `DecimalSort.SortableExactly` | types/decimal.go:638-656 | the bytes in full: the bounds have their two words, every other decimal in bounds has 18 digits on either side of the point that write its absolute value, behind a minus if it is negative; others panic |
| `DecimalSort.SortsAsNumbers` | types/decimal.go:638-656 | the bytes of decimals that are not negative are ordered as the numbers, the greatest included |
| `DecimalSort.NegativesFirst` | types/decimal.go:647-653 | every negative decimal comes before every other, the least first |
| `DecimalSort.NegativesReversed` | types/decimal.go:651-653 | between other negative decimals the order of the bytes is the reverse |
| `DecimalSort.SortableInjective` | types/decimal.go:638-656 | different decimals have different bytes |

## Left out

- SnapshotStore.Store.Save: other saves in progress appear only as the set of their heights, because a save is one step here.
- Scheduling.Scheduler.ProcessAll: the exact sequential store and responses are promised where no key can be both absent and empty, because they are false without it (see SchedulerEmptyValues).
- MultiVersionStore.Store.ValidateTransactionState: the check of recorded iterators is not modelled, because iterators are left out.
- Scheduler: iterator sets and their validation, tracing, metrics, the incarnation kept with each entry of the memory, and the limit on the number of workers (any worker may move next).
- Scheduler: `AbsoluteIndex` is taken to be the position in the batch.
- Transactions run a bounded number of actions and then give a fixed response, in place of the gas of the real machine.
- ICS 23: the SMT and Tendermint specifications, and child orders other than left before right.
- ICS 23: nil pointers inside messages, and the wire format of the messages around ExistenceProof.
- ICS 23: `Calculate` of a commitment proof without a specification.
- ICS 23: the kinds of unmarshalling errors; the model keeps only that an input is refused.
- ICS 23: slices that `Apply` may append to in place are values here.
- Snapshots: pipes, files and the database are ideal and do not fail, except for chunks that cannot be read and directories that cannot be removed.
- Snapshots: extension snapshotters, zlib and protobuf framing of the stream.
- Coins: parsing, JSON, `UnionMax`, decimal coins, and the limit of `Int` to 256 bits.
- Decimals: `QuoRoundUp`, `ApproxRoot` and `Power`, which round at every step and promise no exact result.
- The rest of the repository (baseapp, server, client, codec, telemetry), which is plumbing without such claims.
