# A Dafny model of the Starknet sequencer's chain store, sync protocol and block capacity

This project models the parts of the sequencer repository that keep state in step over many
operations, and proves what those parts are for.

- **Chain store and sync (Papyrus).** The storage keeps one logical list of blocks in many tables:
  headers, hash to number, run-length compressed Starknet versions, signatures, state diffs, class
  tables, CASMs, contract tables and markers. `HeaderSpec.dfy` and `StateSpec.dfy` define the tables of
  a list, `VersionedTables.dfy` and `StateHistory.dfy` those of contract classes, nonces and storage
  values, which can be read at any past state number;
  `StorageTxn.dfy` is the class whose methods write the tables row by row, each proved to leave the
  tables of the changed list. `SyncSpec.dfy` is the sync protocol as a state machine, `SyncSafety.dfy`
  proves its invariant over every run, `StateSync.dfy` is the imperative implementation over tables and
  is proved to follow the state machine, and `SyncTheorems.dfy`, `SyncProgress.dfy` and
  `StateReverts.dfy` state what the whole promises: safety, progress up to the state of the central
  source, and what reverts undo.
- **Block capacity (bouncer).** `BouncerSpec.dfy` gives the weight of a block as one formula over
  unions of sets, `BouncerFormula.dfy` the same weight component by component with its prices written
  out; `Bouncer.dfy` is the class that charges each transaction only its margin.
  `Sums.dfy` holds the laws of sums that order independence rests on.
- **Constants and gas.** `OsConstants.dfy` is the memoising evaluator of the OS constants;
  `GasConversion.dfy` the conversions between L1 gas and Sierra gas that round up.
- **Pending data.** `PendingSpec.dfy` is the pool of download tasks as a state machine whose steps are
  the points where a task gives up control; `PendingSync.dfy` is the class with the loops, and the
  theorems over every run of sessions; `PendingProgress.dfy` says what a session brings.
- **Class cache.** `ClassReads.dfy` says what a class read returns; `ExecutorSpec.dfy` is the block
  executor as a state machine, with and without the class cache; `BlockExecutor.dfy` is the class with
  its storage, its cache and its reader, proved to follow the state machine; `ExecutorReads.dfy` ties
  the reads of every run to the appends that were accepted and not reverted.
- **Configuration.** `ConfigSpec.dfy` has dotted paths and the nested tree; `ConfigLoading.dfy`
  resolves pointers, applies is-none marks and loads; `Converters.dfy` is the hex form of byte vectors.

Conventions. Block numbers, hashes and weights are `nat`; where a machine width matters (the bouncer's
checked additions, the evaluator's `u64`) the bound is written out. A table is a map with the
operations of `Db.dfy`. A writer that fails leaves its transaction undefined, because writers consume
the transaction; only a transaction whose writers all passed is committed. Central, pending and
base-layer sources, the state reader, and the tables a property does not mention are inputs.
A panic of the program is an error value. History that only the proofs need is ghost, or, where it
sits in a value that methods pass on, is named as history in its comment.

## What turned out false, and exactly when it holds

- A block reported as accepted on L1 need not lie below a confirmed block that is still stored: a
  restart that reverts the confirmed block rolls the base-layer marker back, onto a block that may
  never have been confirmed itself. `ReportedBlockMayLackStoredConfirmation` is a run that shows it.
  `RestartKeepsConfirmedIff` says of the stored list and the central source's answers exactly when a
  restart keeps the property, `RunKeepsConfirmedIff` the same for the answers at every restart of a run,
  and `AcceptedOnL1IsConfirmed` what does hold in every run.
- `revert_state_diff` undoes `append_state_diff` alone exactly when the diff declares no class
  (`AppendDiffThenRevert`; `RevertedDiffIsRefused` is an instance on an empty database); together with
  `append_classes` it is always undone (`AppendStateThenRevert`).
- `update_optional_values` compares string prefixes, so a parameter whose name merely starts with that
  of a None parameter is lost (`SiblingIsLost`); `DropsAsIntendedIff` says exactly when nothing is.
- `update_optional_values` leaves an is-none mark behind when an optional parameter is itself named
  like a mark (`MarkIsLeft`); `NoMarksLeftIff` says exactly when none is left.
- Pending compiled classes are deduplicated by compiled class hash but fetched by class hash: of two
  classes with one compiled class hash only the first gets its compiled class
  (`SharedCompiledHashFetchedOnce` is a run, `CompiledClassFetchedIff` the exact condition).
- For the same reason a class that is declared with two compiled class hashes has its compiled class
  fetched twice (`CompiledClassFetchedTwice` is a run). No compiled class is fetched twice exactly when
  no class is the first one declared with two compiled class hashes (`CompiledClassFetchedOnceIff`).

Where the code and its comments differ, the model follows the code: the comment on
`get_compiled_class_marker` lets the marker stop after the last block with classes, while
`append_state_diff` moves it over blocks without classes; the comment on
`deserialize_optional_vec_u8` speaks of values separated by spaces, while the code reads pairs of hex
digits.

## Model

| member | source | states |
|---|---|---|
| Db.PrevBelow | crates/papyrus_storage/src/db/table_types/simple_table.rs:140-191 | lower bound and one step back stand on the greatest key strictly below the bound, or on none when there is none |
| HeaderSpec.VersionRowAt | crates/papyrus_storage/src/header.rs:285-301 | the version table has rows exactly where the version changes |
| HeaderSpec.VersionLookup | crates/papyrus_storage/src/header.rs:202-225 | the compressed table answers the per-block version of every stored block |
| HeaderSpec.HashLookup | crates/papyrus_storage/src/header.rs:192-200 | hash lookup is the exact inverse of header lookup |
| HeaderSpec.EncodingDeterminesChain | crates/papyrus_storage/src/header.rs:160-235 | two lists of full headers and signatures with the same tables are the same list |
| HeaderSpec.RevertEncodes | crates/papyrus_storage/src/header.rs:303-383 | the rows that a revert deletes are exactly the difference between the tables of a list and of the list without its last block |
| StorageTxns.StorageTxn.GetStarknetVersion | crates/papyrus_storage/src/header.rs:202-225 | returns the version of block n of the list exactly when n is below the marker |
| StorageTxns.StorageTxn.GetBlockHeader | crates/papyrus_storage/src/header.rs:160-190 | returns the full header n of the list exactly when n is below the marker |
| StorageTxns.StorageTxn.GetBlockNumberByHash | crates/papyrus_storage/src/header.rs:192-200 | a found number is that of a block with the hash; nothing found means no block has it |
| StorageTxns.StorageTxn.GetBlockSignature | crates/papyrus_storage/src/header.rs:227-235 | returns the signature of block n of the list, if it has one |
| StorageTxns.StorageTxn.AppendHeader | crates/papyrus_storage/src/header.rs:238-283 | appends to the list exactly at the marker and for a new hash, with the error for each other case, and leaves the tables of the longer list |
| StorageTxns.StorageTxn.UpdateStarknetVersion | crates/papyrus_storage/src/header.rs:285-301 | writes a version row exactly when the version differs from that of the last block |
| StorageTxns.StorageTxn.RevertHeader | crates/papyrus_storage/src/header.rs:303-383 | takes exactly the last block off the list, returns its full header and signature, and does nothing for any other number |
| StorageTxns.StorageTxn.AppendBlockSignature | crates/papyrus_storage/src/header.rs:385-401 | signs a stored, unsigned block, with the error for each other case |
| StorageTxns.StorageTxn.AppendBody | crates/papyrus_storage/src/body/mod.rs:346-370 | moves the body and event markers of the next block, or fails at the first marker that is elsewhere |
| StorageTxns.StorageTxn.RevertBody | crates/papyrus_storage/src/body/mod.rs:372-431 | moves both markers back exactly when the block is the last with a body |
| StorageTxns.StorageTxn.AppendStateDiff | crates/papyrus_storage/src/state/mod.rs:429-486 | each refusal in order, that of the contract tables first; on success the contract rows, the diff and the blocks of its new classes are stored and the compiled-class marker has passed blocks without classes |
| StorageTxns.StorageTxn.AdvanceCompiledClassMarker | crates/papyrus_storage/src/state/mod.rs:599-632 | the marker moves over blocks without declared classes and stops at the first other block or at the state marker |
| StorageTxns.StorageTxn.RevertStateDiff | crates/papyrus_storage/src/state/mod.rs:488-579 | removes exactly the rows of the last block, contract rows included, and moves the three markers back; does nothing for any other block |
| StorageTxns.StorageTxn.DeleteDeclaredClasses | crates/papyrus_storage/src/state/mod.rs:702-723 | removes the listed classes, and their block only where the class itself was there |
| StorageTxns.StorageTxn.DeleteDeprecatedDeclaredClasses | crates/papyrus_storage/src/state/mod.rs:725-765 | removes the Cairo 0 classes declared or deployed by the diff whose row names the reverted block |
| StorageTxns.StorageTxn.DeleteCompiledClasses | crates/papyrus_storage/src/state/mod.rs:767-786 | removes the CASMs of the listed classes up to the first that has none |
| StorageTxns.StorageTxn.AppendClasses | crates/papyrus_storage/src/class.rs:159-200 | each refusal in order; on success the new classes are added, Cairo 0 classes keep their first row, and the class marker moves |
| StorageTxns.StorageTxn.WriteClasses | crates/papyrus_storage/src/class.rs:203-216 | succeeds exactly when every hash is new and none comes twice |
| StorageTxns.StorageTxn.WriteDeprecatedClasses | crates/papyrus_storage/src/class.rs:218-240 | adds the classes that have no row, the first of equal hashes counting |
| StorageTxns.StorageTxn.AppendCasm | crates/papyrus_storage/src/compiled_class.rs:114-131 | stores a CASM for a hash that has none, and moves the marker as the loop defines it |
| StorageTxns.StorageTxn.UpdateMarker | crates/papyrus_storage/src/compiled_class.rs:134-167 | the marker stops at the first block without a diff or whose last class is another one |
| StorageTxns.StorageTxn.UpdateBaseLayerBlockMarker | crates/papyrus_storage/src/base_layer.rs:79-83 | sets the base-layer marker and nothing else |
| StorageTxns.StorageTxn.TryRevertBaseLayerMarker | crates/papyrus_storage/src/base_layer.rs:85-97 | rolls the marker back by one exactly when it is just above the reverted block |
| StateSpec.CasmMarkerUnique | crates/papyrus_storage/src/compiled_class.rs:76-79 | one block at most satisfies the definition of the compiled-class marker |
| StateSpec.ClassesBelowMarkerHaveCasm | crates/papyrus_storage/src/compiled_class.rs:134-167 | every class declared below the compiled-class marker has its CASM |
| StateSpec.AppendEncodesState | crates/papyrus_storage/src/state/mod.rs:429-486 | storing the next state diff and its classes leaves the tables and markers of the longer list |
| StateSpec.CasmEncodesState | crates/papyrus_storage/src/compiled_class.rs:114-167 | storing the CASM of the next class leaves the tables of the longer prefix, with the marker at its defined place |
| StateSpec.RevertEncodesState | crates/papyrus_storage/src/state/mod.rs:488-579 | reverting the last state diff leaves the tables and markers of the shorter list, CASMs included |
| StateSpec.FreshIffDistinct | crates/papyrus_storage/src/state/mod.rs:464-467 | the declared classes can be inserted exactly when the flattened list of declared classes stays without duplicates |
| StateSpec.ContractsAcceptIff | crates/papyrus_storage/src/state/mod.rs:442-463 | for any block number, the contract tables accept a diff exactly when it deploys and replaces no contract at once, its block changed none of those contracts, and no block from there on touched a nonce or storage value that it appends |
| StateSpec.NextAcceptedIff | crates/papyrus_storage/src/state/mod.rs:442-463 | the diff of the next block is accepted exactly when it deploys and replaces no contract at once |
| StateSpec.AppendEncodesContracts | crates/papyrus_storage/src/state/mod.rs:442-463 | writing the next diff, default nonces included, leaves the contract tables of the longer list |
| StateSpec.RevertEncodesContracts | crates/papyrus_storage/src/state/mod.rs:552-568 | deleting the last diff, default nonces included, leaves the contract tables of the shorter list |
| StateSpec.ClassIs | crates/papyrus_storage/src/class.rs:203-216 | the class table holds for each declared hash the Sierra class and the number of the block that brought it |
| StateSpec.DeprecatedIs | crates/papyrus_storage/src/class.rs:218-240 | the Cairo 0 table holds the class of the first block that brought a hash, with that block |
| StateSpec.CasmIs | crates/papyrus_storage/src/compiled_class.rs:114-131 | the CASM table holds each CASM under its own class |
| StateReverts.AppendDiffThenRevert | crates/papyrus_storage/src/state/mod.rs:429-579 | appending a state diff without its classes and reverting it restores every table and marker, and can be repeated, exactly when it declares no class |
| StateReverts.AppendStateThenRevert | crates/papyrus_storage/src/state/mod.rs:429-579 | appending a state diff with its classes and reverting it restores every table and marker and returns the diff |
| StateReverts.ContractsRestored | crates/papyrus_storage/src/state/mod.rs:442-463 | the contract tables come back whatever the diff does to contracts |
| StateReverts.RevertedDiffIsRefused | crates/papyrus_storage/src/state/mod.rs:429-579 | on an empty database a diff with one class, appended and reverted without it, leaves a row and is refused when it comes again |
| StateReverts.RevertedMarkers | crates/papyrus_storage/src/state/mod.rs:522-531 | the state, class and compiled-class markers come back to where they were, past blocks without classes or not |
| VersionedTables.CursorPrev | crates/papyrus_storage/src/db/table_types/simple_table.rs:146-191 | on rows ordered by key and block, the cursor stands on the greatest row strictly below the bound |
| VersionedTables.CursorFindsLastChange | crates/papyrus_storage/src/state/mod.rs:271-308 | the row before the bound is the last change of the key below the state number, or belongs to another key and there is none |
| VersionedTables.ReadIsReplay | crates/papyrus_storage/src/state/mod.rs:240-340 | a read at a state number returns what replaying the blocks before it gives the key |
| VersionedTables.LaterBlocksDoNotMatter | crates/starknet_api/src/state.rs:138-165 | the values at a state number do not depend on the blocks after it |
| VersionedTables.RevertRows | crates/papyrus_storage/src/state/mod.rs:788-840 | the rows of the last block are exactly the difference between the tables with and without it |
| StateHistory.InsertRows | crates/papyrus_storage/src/state/mod.rs:675-686 | all rows are added exactly when none is there |
| StateHistory.AppendRowsOf | crates/papyrus_storage/src/db/table_types/dup_sort_tables.rs:380-408 | all rows are added exactly when no key has a row of this block or a later one |
| StateHistory.WriteDiff | crates/papyrus_storage/src/state/mod.rs:442-463 | on any tables the writes pass exactly when no inserted row is there, before or in the diff itself, and no appended key has a row of the block or a later one; they add the rows of the diff |
| StateHistory.DeleteDiff | crates/papyrus_storage/src/state/mod.rs:552-568 | on any tables removes exactly the rows of the block for the keys of the diff, in the nonce table also those of its deployed contracts |
| StateHistory.AcceptedIff | crates/papyrus_storage/src/state/mod.rs:442-463 | the acceptance of the tables of a list, for any block number, in the words of the list |
| StateHistory.WrittenIsLonger | crates/papyrus_storage/src/state/mod.rs:442-463 | the tables with the rows of the next diff are those of the longer list |
| StateHistory.DeletedIsShorter | crates/papyrus_storage/src/state/mod.rs:552-568 | the tables without the rows of the last diff are those of the shorter list |
| StateHistory.GetClassHashAt | crates/papyrus_storage/src/state/mod.rs:240-260 | the class of a contract after replaying the blocks before the state number, if it has one |
| StateHistory.GetNonceAt | crates/papyrus_storage/src/state/mod.rs:271-308 | the nonce after replaying the blocks before the state number, 0 for a contract deployed without one |
| StateHistory.GetStorageAt | crates/papyrus_storage/src/state/mod.rs:311-340 | the storage value after replaying the blocks before the state number, 0 if never written |
| StateHistory.BlockUpdates | crates/papyrus_storage/src/state/mod.rs:635-700 | what one block changes of the readable values: a deployed or replaced class, the given nonce or 0 for a contract deployed without one, the storage values it sets, and nothing else |
| StateSyncs.StateSync.constructor | crates/papyrus_sync/src/lib.rs:788-812 | an empty database stands for the initial state |
| StateSyncs.StateSync.VerifyParentBlockHash | crates/papyrus_sync/src/lib.rs:566-602 | passes at genesis and exactly when the stored hash below is the parent hash; otherwise names both hashes or the missing header |
| StateSyncs.StateSync.StoreBlock | crates/papyrus_sync/src/lib.rs:409-447 | header, signature and body go in together or not at all; the tables follow the list, with the error of each refusal |
| StateSyncs.StateSync.StoreStateDiff | crates/papyrus_sync/src/lib.rs:451-494 | stores diff, contract rows and classes exactly when it is the next diff, declares only new classes and deploys and replaces no contract at once; otherwise the first refusal in the order of the writes |
| StateSyncs.StateSync.StoreCompiledClass | crates/papyrus_sync/src/lib.rs:498-531 | a class whose CASM is stored is skipped, any other is stored and the marker moves; the next class in stored order extends the stored prefix |
| StateSyncs.StateSync.GetClassHashAt | crates/papyrus_storage/src/state/mod.rs:240-260 | in every state of the sync the class of a contract at a state number is that of replaying the stored blocks before it |
| StateSyncs.StateSync.GetNonceAt | crates/papyrus_storage/src/state/mod.rs:271-308 | the same for nonces |
| StateSyncs.StateSync.GetStorageAt | crates/papyrus_storage/src/state/mod.rs:311-340 | the same for storage values |
| StateSyncs.StateSync.StoreBaseLayerBlock | crates/papyrus_sync/src/lib.rs:534-563 | moves the marker exactly when the stored block has the confirmed hash |
| StateSyncs.StateSync.RevertBlock | crates/papyrus_sync/src/lib.rs:626-649 | the tables follow the list without its last block; state and base-layer marker follow when they reach it |
| StateSyncs.StateSync.ShouldRevertBlock | crates/papyrus_sync/src/lib.rs:653-666 | yes exactly when the central source lacks the block or has another hash for it |
| StateSyncs.StateSync.HandleBlockReverts | crates/papyrus_sync/src/lib.rs:605-622 | the loop terminates with the tables of the list that the recursive revert rule defines |
| StateSyncs.StateSync.RequestStateDiffs | crates/papyrus_sync/src/lib.rs:730-770 | the range that is asked for is that of the state machine, for which `StateDiffRangeIff` gives both ends |
| StateSyncs.StateSync.FirstBlockWithClasses | crates/papyrus_sync/src/lib.rs:814-860 | a CASM stream starts at the first block with classes from the marker on |
| StateSyncs.StateSync.CasmQueue | crates/papyrus_sync/src/lib.rs:814-860 | a CASM stream sends the declared classes of its block range in stored order |
| StateSyncs.StateSync.ProcessEvent | crates/papyrus_sync/src/lib.rs:373-399 | on any event the tables follow the state machine and stay those of a safe state |
| SyncSpec.CasmMarkerExists | crates/papyrus_storage/src/compiled_class.rs:134-167 | for every number of stored CASMs there is a block that satisfies the definition of the marker |
| SyncSafety.CasmRequestAligned | crates/papyrus_sync/src/lib.rs:814-860 | a new CASM stream starts at a class that is stored already or is the next one to store |
| SyncSafety.NextSafe | crates/papyrus_sync/src/lib.rs:373-399 | every event keeps linked headers, distinct hashes, classes declared once, marker order and the alignment of the CASM stream |
| SyncSafety.EveryRunIsSafe | crates/papyrus_sync/src/lib.rs:305-370 | the same in every state of every run, through failures, restarts and reverts |
| SyncTheorems.RevertsToLongestCommonPrefix | crates/papyrus_sync/src/lib.rs:605-649 | against a fixed linked central chain the revert loop ends without error and leaves exactly the longest common prefix |
| SyncTheorems.SyncConverges | crates/papyrus_sync/src/lib.rs:305-370 | a restart followed by the central chain's remaining blocks stores all of them and ends with the central chain |
| SyncTheorems.AcceptedOnL1IsConfirmed | crates/papyrus_rpc/src/lib.rs:186-198 | in every state of every run a block reported as accepted on L1 is stored, and at an earlier step lay on the parent chain of a block that the base layer then confirmed |
| SyncTheorems.RevertsKeepExactly | crates/papyrus_sync/src/lib.rs:605-622 | the revert loop keeps p blocks exactly when the answers disagree with every block from p on and not with the one before |
| SyncTheorems.RestartKeepsConfirmedIff | crates/papyrus_sync/src/lib.rs:605-649 | a restart loses the stored confirmed block above the reported ones exactly when the answers keep p blocks, 0 < p < marker, and block p - 1 was not confirmed |
| SyncTheorems.RunKeepsConfirmedIff | crates/papyrus_sync/src/lib.rs:305-370 | a run has such a block in every state exactly when no restart gets answers of that kind for the list it finds stored |
| SyncTheorems.ReportedBlockMayLackStoredConfirmation | crates/papyrus_sync/src/lib.rs:605-649 | a run of two stored blocks, the upper confirmed and reverted by a restart: the lower is reported and no stored block is confirmed |
| SyncTheorems.StoringKeepsTopConfirmed | crates/papyrus_sync/src/lib.rs:373-399 | no event but a restart takes the confirmation from the topmost reported block |
| SyncTheorems.PastStatesAreStable | crates/starknet_api/src/state.rs:138-165 | between two states of a run that does not revert below state number n, every class, nonce and storage value at n is the same |
| SyncTheorems.MarkersInOrder | crates/papyrus_storage/src/lib.rs:653-668 | compiled class <= class <= state <= header, body and base layer <= header, in the tables of every safe state |
| SyncTheorems.CasmTableIsPrefix | crates/papyrus_storage/src/compiled_class.rs:114-167 | stored CASMs are a prefix of the flattened declared classes, complete below the marker, and the marker's block lacks its last one |
| SyncTheorems.FollowRun | crates/papyrus_sync/src/lib.rs:305-370 | the implementation follows every run of the state machine, with the markers in order and the body marker at the header marker at the end of each |
| SyncProgress.SessionEndsIff | crates/papyrus_sync/src/lib.rs:305-370 | for every event exactly when it leaves the node without a session, in the words of the stored lists and the answers; then only a restart can happen |
| SyncProgress.RevertsFailIff | crates/papyrus_sync/src/lib.rs:605-622 | a restart fails exactly when the answers stop the revert loop at a block that the central source failed to give |
| SyncProgress.StepStores | crates/papyrus_sync/src/lib.rs:373-399 | for every event what it does to headers, state blocks, CASMs and base-layer marker, in the words of the lists |
| SyncProgress.RevertsCut | crates/papyrus_sync/src/lib.rs:605-649 | a restart cuts headers, state blocks, CASMs and base-layer marker at one place |
| SyncProgress.StoredWasSent | crates/papyrus_sync/src/lib.rs:409-494 | in every state of every run each stored header, with its signature, and each stored state block, with its classes, is one that was sent for that number |
| SyncProgress.CasmsWereSent | crates/papyrus_sync/src/lib.rs:498-531 | in every state of every run each stored CASM is one that was sent for its class when a stream had asked for it |
| SyncProgress.TablesHold | crates/papyrus_storage/src/state/mod.rs:429-486 | the tables hold the diff of each block, for each class its own Sierra class and block, and for each CASM its own class |
| SyncProgress.StateDiffRangeIff | crates/papyrus_sync/src/lib.rs:730-770 | after a request a state diff can arrive exactly for the blocks below the header marker and fewer than the stream size above the state marker |
| SyncProgress.CasmRequestIs | crates/papyrus_sync/src/lib.rs:814-860 | a CASM stream is asked for exactly the declared classes of the blocks from the compiled-class marker up to the state marker or the stream size |
| SyncProgress.StateDiffsConverge | crates/papyrus_sync/src/lib.rs:730-770 | enough requests of any size but 0, with the answers to them, store the state of every header |
| SyncProgress.CasmsConverge | crates/papyrus_sync/src/lib.rs:814-860 | enough requests of any size but 0, with the answers to them, store the CASM of every declared class |
| SyncProgress.NodeConverges | crates/papyrus_sync/src/lib.rs:305-370 | from any safe node a restart, the remaining blocks and enough rounds of state diffs and CASMs end with every block, state diff, class and CASM of the central source |
| SyncTheorems.RunHeaderOps | crates/papyrus_storage/src/header.rs:238-401 | whatever header transactions are made, the tables are those of the plain list they build |
| SyncTheorems.AppendThenRevert | crates/papyrus_storage/src/header.rs:238-401 | appending a header, signed or not, and reverting it restores every table and returns both |
| SyncTheorems.RevertThenAppend | crates/papyrus_storage/src/header.rs:238-401 | reverting the last header and appending what came back restores every table |
| Bouncers.CheckedAddBuiltins | crates/blockifier/src/bouncer.rs:28-50 | adding builtin counters one by one gives the sum exactly when no counter overflows |
| Bouncers.CheckedAdd | crates/blockifier/src/bouncer.rs:28-50 | adding weights component by component gives the sum exactly when no component overflows |
| Bouncers.GetCasmHashCalculationResources | crates/blockifier/src/bouncer.rs:574-591 | the cost of a set of classes, in whatever order they come, exactly when all are known |
| Bouncers.GetTxWeights | crates/blockifier/src/bouncer.rs:545-572 | the failure that comes first, or in every component what the transaction uses plus the cost of the given classes, entries and keys at the written-out prices |
| Bouncers.VerifyTxWeightsWithinMaxCapacity | crates/blockifier/src/bouncer.rs:606-622 | passes exactly when a block with this transaction alone fits, and names the failure or that it is too large otherwise |
| Bouncers.FreshBouncerAgrees | crates/blockifier/src/bouncer.rs:606-622 | a transaction passes on its own exactly when a fresh bouncer accepts it, is too large exactly when that bouncer is full, and fails alike |
| Bouncers.Bouncer.constructor | crates/blockifier/src/bouncer.rs:451-453 | an empty bouncer holds the weight of the empty block |
| Bouncers.Bouncer.TryUpdate | crates/blockifier/src/bouncer.rs:470-518 | accepts exactly when the accepted transactions and this one fit as a batch; names the failure otherwise and then changes nothing |
| Bouncers.Bouncer.Update | crates/blockifier/src/bouncer.rs:520-537 | adding the margins of a transaction that fits keeps sets and weights those of the batch formula, within capacity |
| BouncerSpec.BooksStep | crates/blockifier/src/bouncer.rs:520-537 | the sets, keys and weights of a batch with a transaction's margins added are those of the longer batch |
| Bouncers.OfferAll | crates/blockifier/src/bouncer.rs:470-537 | a batch is accepted in full exactly when it fits, and the weights are in every component those of the formula of the accepted transactions |
| Bouncers.OrderDoesNotMatter | crates/blockifier/src/bouncer.rs:470-537 | two orders of one batch both fit or both do not, and weigh the same |
| BouncerFormula.BlockWeightIs | crates/blockifier/src/bouncer.rs:470-604 | the weight of a block is in every component the use of its transactions, plus the hashing cost of each class once, 768 steps and 48 Pedersen hashes for each visited entry once, and one or two words for each changed key once |
| BouncerFormula.TxWeightIs | crates/blockifier/src/bouncer.rs:545-572 | the same for one transaction with any classes, entries and keys to pay for |
| BouncerFormula.FitsIff | crates/blockifier/src/bouncer.rs:117-119 | a countable block fits exactly when this sum is within the capacity in every component |
| BouncerFormula.WeightIsUnique | crates/blockifier/src/bouncer.rs:470-604 | no two weights satisfy the formula |
| BouncerSpec.UnionsByMember | crates/blockifier/src/bouncer.rs:520-537 | the classes and entries of a block are those of its transactions |
| BouncerSpec.KeysByMember | crates/blockifier/src/bouncer.rs:520-537 | the changed keys of a block are those of its transactions, kind by kind |
| BouncerSpec.MarginsAddUp | crates/blockifier/src/bouncer.rs:470-604 | the margin charged for a transaction is the difference between the batch weights with and without it |
| BouncerSpec.BlockWeightOfPermutation | crates/blockifier/src/bouncer.rs:470-604 | the weight of a block depends on its multiset of transactions only |
| BouncerSpec.SubBlockFits | crates/blockifier/src/bouncer.rs:117-119 | every sub-collection of a block that fits, in any order, fits |
| BouncerSpec.AcceptanceIsMonotone | crates/blockifier/src/bouncer.rs:470-518 | a transaction accepted after some history is accepted after any sub-history of it |
| OsConstants.RecursiveAddToBase | crates/blockifier/src/versioned_constants.rs:888-948 | succeeds exactly when the plain recursive meaning exists; everything remembered equals its meaning, and exactly the reachable keys are added |
| OsConstants.AddEntries | crates/blockifier/src/versioned_constants.rs:908-934 | the sum of factor times inner value, exactly when all of them exist and fit in u64 |
| OsConstants.AddEntry | crates/blockifier/src/versioned_constants.rs:914-932 | one more term of the sum, with the error of each way to fail |
| OsConstants.ParseBase | crates/blockifier/src/versioned_constants.rs:837-851 | for every order of the keys it succeeds exactly when the equations of the file have a solution with the non-ignored keys; the table is one, has each such key and all it is built from, and gives each its plain meaning |
| OsConstants.FaithfulSolves | crates/blockifier/src/versioned_constants.rs:888-948 | what the evaluator remembers solves the equations: a number is itself, an object the sum of factor times value, within u64 |
| OsConstants.SolutionIsMeaning | crates/blockifier/src/versioned_constants.rs:888-948 | any solution of the equations gives its constants their plain meaning, so at most one value each |
| OsConstants.TableIsUnique | crates/blockifier/src/versioned_constants.rs:837-851 | one file has one table, whatever the order of its keys |
| OsConstants.SumIsCapped | crates/blockifier/src/versioned_constants.rs:908-934 | overflow at some entry is overflow of the whole sum: the meaning is one sum, capped at the end |
| OsConstants.MeaningIgnoresEntryOrder | crates/blockifier/src/versioned_constants.rs:908-934 | the order of the entries inside definitions does not change the meaning of any key |
| OsConstants.TableIgnoresEntryOrder | crates/blockifier/src/versioned_constants.rs:837-851 | files that differ only in the order of entries have the same table |
| OsConstants.MeaningIgnoresRank | crates/blockifier/src/versioned_constants.rs:888-889 | the meaning does not depend on the ranking that shows the definitions to be acyclic |
| GasConversion.ConversionIsLeastCover | crates/blockifier/src/versioned_constants.rs:236-240 | the converted amount is the least Sierra amount whose exact L1 value covers the input |
| GasConversion.BackConversionIsLeastCover | crates/blockifier/src/versioned_constants.rs:242-245 | the converted L1 amount is the least that covers the Sierra amount |
| GasConversion.PriceIsLeastCover | crates/blockifier/src/versioned_constants.rs:227-234 | the converted price is the least that covers the share of an L1 gas unit |
| GasConversion.RoundTripOvershoot | crates/blockifier/src/versioned_constants.rs:236-245 | converting to Sierra gas and back loses nothing and gains at most (numerator - 1) / denominator, rounded up |
| GasConversion.UnitFractionRoundTrip | crates/blockifier/src/versioned_constants.rs:236-245 | for a unit fraction the round trip is exact |
| GasConversion.SierraRoundTripOvershoot | crates/blockifier/src/versioned_constants.rs:236-245 | the round trip from Sierra gas has the mirrored bound |
| GasConversion.ConvertedChargeCovers | crates/blockifier/src/versioned_constants.rs:227-240 | converted amount times converted price is never below the original charge |
| GasConversion.ReducedRatioConvertsAlike | crates/blockifier/src/versioned_constants.rs:247-252 | a ratio and its reduced form convert every amount and price alike |
| PendingSpec.NextKeepsInv | crates/papyrus_sync/src/pending_sync.rs:48-205 | every step of every task, and every start and stop of a session, keeps the invariant of the task pool and the class stores |
| PendingSpec.OnNewPendingDataAsks | crates/papyrus_sync/src/pending_sync.rs:64-115 | after new pending data the tasks pushed so far ask for exactly the first occurrences among all declarations |
| PendingSyncs.PendingSync.constructor | crates/papyrus_sync/src/pending_sync.rs:22-32 | empty class stores and no session satisfy the invariant |
| PendingSyncs.PendingSync.StartFromStorage | crates/papyrus_sync/src/pending_sync.rs:33-60 | a session watches the hash of the last stored header, or the genesis hash, with one task |
| PendingSyncs.PendingSync.PendingDataFetched | crates/papyrus_sync/src/pending_sync.rs:148-162 | pending data on another block ends the session; otherwise the task goes on to compare |
| PendingSyncs.PendingSync.PendingDataCompared | crates/papyrus_sync/src/pending_sync.rs:164-184 | data that is not more advanced is dropped and asked for again; a new parent leads to a clear, otherwise to a write |
| PendingSyncs.PendingSync.PendingClassesCleared | crates/papyrus_sync/src/pending_sync.rs:172-180 | both class stores are emptied before the data is written |
| PendingSyncs.PendingSync.PendingDataWritten | crates/papyrus_sync/src/pending_sync.rs:64-115 | the data is replaced and the loop pushes what follows from it |
| PendingSyncs.PendingSync.PushDeclaredClasses | crates/papyrus_sync/src/pending_sync.rs:74-95 | one pass over the declared classes, class and compiled class each unless its key was processed |
| PendingSyncs.PendingSync.PushOldDeclaredContracts | crates/papyrus_sync/src/pending_sync.rs:96-106 | one pass over the Cairo 0 classes unless processed |
| PendingSyncs.PendingSync.ClassStored | crates/papyrus_sync/src/pending_sync.rs:187-195 | takes the step of the state machine: the fetched class enters the class store and its task ends |
| PendingSyncs.PendingSync.CompiledClassStored | crates/papyrus_sync/src/pending_sync.rs:197-205 | takes the step of the state machine: the fetched compiled class enters its store and its task ends |
| PendingSyncs.PendingSync.Process | crates/papyrus_sync/src/pending_sync.rs:61-131 | the implementation follows the state machine on every event and keeps its invariant |
| PendingSyncs.EveryRunKeepsInv | crates/papyrus_sync/src/pending_sync.rs:22-205 | the invariant holds in every state of every run of sessions, in every interleaving |
| PendingSyncs.OneDataTask | crates/papyrus_sync/src/pending_sync.rs:48-64 | a session always has exactly one outstanding pending-data task, so its pool is never empty |
| PendingSyncs.ClearsOnceBeforeAnyClassTask | crates/papyrus_sync/src/pending_sync.rs:172-180 | a session clears the class stores at most once, and before it has asked for any class |
| PendingSyncs.ClassesBelongToCurrentParent | crates/papyrus_sync/src/pending_sync.rs:172-205 | in every state, also across sessions, a pending class was fetched for pending data on the current parent that declares it |
| PendingSyncs.PendingDataOnlyGrows | crates/papyrus_sync/src/pending_sync.rs:164-184 | a session only replaces its pending data by longer data on the same block |
| PendingSyncs.EachClassFetchedOnce | crates/papyrus_sync/src/pending_sync.rs:74-106 | a session fetches each class its pending data declared exactly once, and no other |
| PendingSyncs.CompiledClassFetchedIff | crates/papyrus_sync/src/pending_sync.rs:85-94 | a compiled class is fetched as often as its class is the first declared with some compiled class hash, and one fetch is made per compiled class hash |
| PendingSyncs.CompiledClassFetchedOnceIff | crates/papyrus_sync/src/pending_sync.rs:85-94 | no compiled class is fetched twice exactly when no class is the first declared with two compiled class hashes |
| PendingSyncs.CompiledClassFetchedTwice | crates/papyrus_sync/src/pending_sync.rs:85-94 | a run whose pending data declares one class with two compiled class hashes, and its compiled class is asked for twice |
| PendingSyncs.SharedCompiledHashFetchedOnce | crates/papyrus_sync/src/pending_sync.rs:85-94 | a run whose pending data declares two classes with one compiled class hash, and the second's compiled class is not asked for |
| PendingProgress.RequestedIsStoredOrUnderway | crates/papyrus_sync/src/pending_sync.rs:74-131 | in every state of every run each class and compiled class that the session asked for is stored, or a task is at work on it |
| PendingProgress.IdleSessionHasStored | crates/papyrus_sync/src/pending_sync.rs:61-131 | a session without a class task has stored every class that its pending data declared and every compiled class that it asked for |
| PendingProgress.StoredContentWasFetched | crates/papyrus_sync/src/pending_sync.rs:187-205 | in every state of every run a stored class has the content that was fetched for its hash and its pending data |
| PendingProgress.NewDataIsWritten | crates/papyrus_sync/src/pending_sync.rs:148-184 | pending data on the watched block that is longer than the stored data, or the first on that block, is written, with both stores cleared in the second case only |
| PendingProgress.OldDataIsDropped | crates/papyrus_sync/src/pending_sync.rs:164-184 | pending data that is no longer than the stored data on the same block changes nothing, and the poll goes on |
| PendingProgress.OtherBlockEndsSession | crates/papyrus_sync/src/pending_sync.rs:157-162 | pending data on another block ends the session and changes nothing else |
| ClassReads.ReadIsClassIn | crates/papyrus_state_reader/src/papyrus_state.rs:48-91 | an uncached read returns the class of the stored blocks if it is visible at the reader's block, and otherwise reports it undeclared; it never panics or finds half a class |
| ClassReads.AlignedReadIsClassIn | crates/papyrus_state_reader/src/papyrus_state.rs:48-91 | a reader at or above the end of the list sees every stored class |
| ClassReads.AppendKeepsClassIff | crates/native_blockifier/src/storage.rs:120-240 | appending a block changes the class of a hash exactly when it was a Cairo 0 class that the block declares as Cairo 1 |
| ClassReads.RevertEncodesBlocks | crates/native_blockifier/src/storage.rs:108-118 | reverting the last block removes its classes and CASMs and nothing else |
| ClassReads.CachedReadIff | crates/papyrus_state_reader/src/papyrus_state.rs:134-152 | for a reader at any block, a cached read returns what the uncached read returns exactly when the hash is not cached or its class is visible |
| ExecutorSpec.NewBlockFits | crates/native_blockifier/src/storage.rs:120-240 | the block built from the inputs brings only classes that are not stored, and they fit its diff |
| ExecutorSpec.EveryRunKeepsOrder | crates/native_blockifier/src/storage.rs:155-175 | in every run each stored block deploys only contracts that had no class before it and replaces only classes of contracts that had one |
| ExecutorSpec.DeployedOnce | crates/native_blockifier/src/storage.rs:155-175 | over any run from empty storage no two stored blocks deploy the same contract |
| ExecutorSpec.StepKeepsInv | crates/native_blockifier/src/py_block_executor.rs:158-346 | every append, revert, set-up, teardown and read keeps the cache sound and visible to the reader in use |
| ExecutorSpec.EveryRunKeepsInv | crates/native_blockifier/src/py_block_executor.rs:158-346 | the same in every state of every run, whose ledger is that of the executor without a cache |
| ExecutorSpec.ReadIsPlain | crates/papyrus_state_reader/src/papyrus_state.rs:134-152 | a cached read returns the uncached read, whether or not the reader is still aligned with storage |
| ExecutorSpec.CacheIsTransparent | crates/papyrus_state_reader/src/papyrus_state.rs:134-152 | over any interleaving of appends, reverts, set-ups, evictions and reads, the reads are one by one those of an executor without a cache |
| ExecutorReads.RunIsReplayed | crates/native_blockifier/src/storage.rs:108-240 | after any run the ledger is that of the accepted appends that were not reverted, one after the other |
| ExecutorReads.AcceptsIff | crates/native_blockifier/src/storage.rs:120-240 | an append is accepted exactly when it is for the next block and no earlier one has its block hash |
| ExecutorReads.RevertUndoesAppend | crates/native_blockifier/src/storage.rs:108-118 | a revert of the last block gives back the ledger before its append: headers, state, classes and CASMs |
| ExecutorReads.ReadSeesAppends | crates/papyrus_state_reader/src/papyrus_state.rs:48-91 | after any run a read returns the CASM and Sierra class, or the Cairo 0 class, of the first append that counts to bring the hash, and reports a hash that none brings as undeclared |
| ExecutorReads.CachedReadSeesAppends | crates/papyrus_state_reader/src/papyrus_state.rs:134-152 | the same for reads through the cache under any eviction |
| ExecutorReads.AppendedClassIsRead | crates/native_blockifier/src/storage.rs:176-203 | after an accepted append a reader set up at the new end gets the CASM and Sierra class that it brought |
| ExecutorReads.LedgerHasUpdates | crates/native_blockifier/src/storage.rs:155-212 | each stored block has the class, storage and nonce updates of its append |
| ExecutorReads.ReadIsCached | crates/papyrus_state_reader/src/papyrus_state.rs:134-152 | what a read found is cached, unless it is evicted at once |
| ExecutorReads.TeardownEndsReads | crates/native_blockifier/src/py_block_executor.rs:184-186 | after a teardown there is no reader to ask |
| BlockExecutors.BlockExecutor.constructor | crates/native_blockifier/src/py_block_executor.rs:124-153 | empty storage and an empty cache are the initial state of the machine and satisfy its invariant |
| BlockExecutors.BlockExecutor.GetClassDefinitionAt | crates/papyrus_storage/src/state/mod.rs:356-382 | returns the class exactly when it was declared before the state number, and meets no inconsistency |
| BlockExecutors.BlockExecutor.SplitByAssigned | crates/native_blockifier/src/storage.rs:155-175 | the contracts that have a class before the block are the replaced ones, the others the deployed ones |
| BlockExecutors.BlockExecutor.AppendBlock | crates/native_blockifier/src/storage.rs:120-240 | succeeds exactly at the end of the list and for a new block id, takes the step of the machine with the classes that were not known and the contracts split by what is stored, and changes nothing otherwise |
| BlockExecutors.AppendCasms | crates/native_blockifier/src/storage.rs:200-203 | CASMs written before their state diff are all added, and leave the compiled-class marker within the stored blocks |
| BlockExecutors.BlockExecutor.RevertBlock | crates/native_blockifier/src/py_block_executor.rs:342-346 | clears the cache and takes exactly the last block with its classes and CASMs off storage, or nothing for any other number |
| BlockExecutors.BlockExecutor.SetupBlockExecution | crates/native_blockifier/src/py_block_executor.rs:397-405 | a reader is made exactly when both markers are at the block to be executed |
| BlockExecutors.BlockExecutor.GetCompiledClassInner | crates/papyrus_state_reader/src/papyrus_state.rs:48-91 | the lookups in the tables compute the uncached read |
| BlockExecutors.BlockExecutor.GetCompiledClass | crates/papyrus_state_reader/src/papyrus_state.rs:134-152 | the reader in use gets what the uncached read returns, and the cache takes the step of the machine under any eviction |
| BlockExecutors.BlockExecutor.Process | crates/native_blockifier/src/py_block_executor.rs:158-346 | each call takes the step of the machine, returns its read and keeps the invariant |
| BlockExecutors.BlockExecutor.Run | crates/native_blockifier/src/py_block_executor.rs:158-346 | after any sequence of calls the state is that of the machine, and the log holds the result of each read, equal to the log of an executor without a cache |
| ConfigLoading.SplitPointersMap | crates/papyrus_config/src/loading.rs:82-101 | pointer parameters and the others are separated without overlap or loss |
| ConfigLoading.UpdateByPointers | crates/papyrus_config/src/loading.rs:142-155 | succeeds exactly when each target is stored or is a pointer that sorts before; then every pointer equals the final value of its target and nothing stored has changed; otherwise names the first missing target |
| ConfigLoading.ChainEndsAtRoot | crates/papyrus_config/src/loading.rs:142-155 | through any chain of pointers a parameter has the value of the stored parameter at its end |
| ConfigLoading.ResolutionIsUnique | crates/papyrus_config/src/loading.rs:142-155 | stored values and pointers determine the final values |
| ConfigLoading.RemoveMarks | crates/papyrus_config/src/loading.rs:158-172 | all is-none marks go and the parameters marked true are collected |
| ConfigLoading.UpdateOptionalValues | crates/papyrus_config/src/loading.rs:158-191 | the loops leave what the closed form of the optional values says |
| ConfigLoading.OptionalValueAt | crates/papyrus_config/src/loading.rs:158-191 | null stands exactly at the outermost None parameters, and any other key is kept with its value exactly when it is no mark and has no None parameter as string prefix |
| ConfigLoading.NoneParamIff | crates/papyrus_config/src/loading.rs:158-172 | a parameter is None exactly when its mark is there and says true |
| ConfigLoading.OutermostIff | crates/papyrus_config/src/loading.rs:179-190 | a None parameter is set to null exactly when no other None parameter is a string prefix of it |
| ConfigLoading.OptionalValuesPrefixFree | crates/papyrus_config/src/loading.rs:158-191 | from a dump the result has no parameter inside another |
| ConfigLoading.NoMarksLeftIff | crates/papyrus_config/src/loading.rs:158-191 | no mark is left exactly when no outermost None parameter is named like a mark |
| ConfigLoading.MarkIsLeft | crates/papyrus_config/src/loading.rs:158-191 | a dump with an optional parameter named like a mark, whose mark stays as a key |
| ConfigLoading.DropsAsIntendedIff | crates/papyrus_config/src/loading.rs:173-189 | string prefixes drop exactly what path prefixes would exactly when every key that looks like being inside a None parameter is inside one |
| ConfigLoading.SiblingIsLost | crates/papyrus_config/src/loading.rs:173-176 | a parameter whose name starts with that of a None parameter is lost |
| ConfigLoading.Load | crates/papyrus_config/src/loading.rs:35-49 | for leaf values, the tree is built and every path reads back its value exactly when no parameter lies inside another, and then it has no other leaf |
| ConfigLoading.OrderedEntries | crates/papyrus_config/src/loading.rs:146-147 | the pointers in the byte order of their parameters, each once |
| ConfigLoading.LessIff | crates/papyrus_config/src/loading.rs:146-147 | the order of parameters is decided at the first character where they differ |
| ConfigLoading.UpdateConfigMap | crates/papyrus_config/src/loading.rs:193-219 | overrides are applied exactly when each is allowed; then each parameter has the value of the last override that names it, and otherwise what it had; otherwise the error is that of the first that is not allowed |
| ConfigLoading.OverriddenAt | crates/papyrus_config/src/loading.rs:193-219 | the value of a parameter is that of the last override that names it, if there is one |
| ConfigLoading.AllowedIff | crates/papyrus_config/src/loading.rs:193-214 | an override is allowed exactly for a known parameter of its kind, by its declared type or its default value |
| ConfigLoading.DefaultAt | crates/papyrus_config/src/loading.rs:104-125 | a parameter starts with its default value exactly when that is a number, a text or a boolean |
| ConfigLoading.IntegerTypes | crates/papyrus_config/src/lib.rs:118-138 | the type of an integer parameter says whether its default is negative |
| ConfigLoading.ProcessConfig | crates/papyrus_config/src/loading.rs:53-80 | split, overrides, pointers, optional values and loading together: the first refused override or an unresolvable pointer is its error; every path reads back exactly when no parameter lies inside another, and then every kept parameter reads its configured value and every kept pointer that of the end of its chain |
| ConfigSpec.PathPrefixIff | crates/papyrus_config/src/loading.rs:42-45 | one path lies inside another exactly when its split names continue the other's |
| ConfigSpec.GetInsert | crates/papyrus_config/src/loading.rs:42-46 | an assignment along a path changes what is read at, above and below the path, and nothing else |
| Converters.Deserialize | crates/papyrus_config/src/converters.rs:106-135 | the empty string is none, a missing prefix an error, and the pairs are read from left to right up to the first error or a slice out of range |
| Converters.ParsesIff | crates/papyrus_config/src/converters.rs:120-134 | a hex text is read as bytes exactly when each pair of digits, of either case, stands for its byte with the sixteens first |
| Converters.RoundTrip | crates/papyrus_config/src/converters.rs:91-135 | decoding the encoding of any optional byte vector, none and empty included, returns it |
| Converters.ReencodesIff | crates/papyrus_config/src/converters.rs:92-135 | encoding what was decoded returns the text exactly when its digits are lower case |

## Left out

- StorageTxns.StorageTxn.RevertStateDiff: the deleted classes it returns beside the diff are not modelled.
- StorageTxns.StorageTxn.AppendStateDiff: a refusal of the contract tables is one error, whichever of them refuses first.
- StorageTxns.StorageTxn.AppendBody: the transaction tables are one input that says whether they accept the body; only the two markers are modelled.
- StorageTxns.StorageTxn.RevertBody: only the two markers, not the transaction rows it removes.
- StateSyncs.StateSync.ProcessEvent: sources are inputs that send state diffs only in the range asked for, with classes that fit the diff, as the central source promises; block signature verification and sequencer keys are not modelled.
- StateSyncs.StateSync.StoreStateDiff: is stated for classes that fit the diff, as `append_classes` asks of its callers.
- ConfigLoading.UpdateByPointers: pointers come in key order and are no stored parameters; `ConfigLoading.ProcessConfig` has both from `OrderedEntries` and `SplitPointersMap`.
- BlockExecutors.BlockExecutor.GetCompiledClass: conversion of a stored class to its executable form is taken to succeed, a read is one step because every executor call holds the executor exclusively, and eviction may drop any entries, the least recently used among them.
- BlockExecutors.BlockExecutor.AppendBlock: class hashes of the two Cairo kinds are taken to be disjoint, and raw classes and addresses are taken to decode.
- OsConstants.ParseBase: the keys to ignore are an input, and a sum beyond u64 is a panic, as in builds with overflow checks.
- Bouncers.Bouncer.TryUpdate: the execution summary, the state-change keys and the CASM-hash costs of classes are inputs; intermediate `usize` sums are unbounded and the resulting weights are checked against the machine bounds.
- GasConversion.ConvertedChargeCovers: amounts and prices are unbounded, so overflow of the 64 and 128 bit products is not modelled, and the ratio is an input.
- ConfigLoading.Load: the walk along a path is a recursive function on values instead of a mutable reference into the tree, and deserialization into the configuration type is not modelled.
- Converters.Deserialize: strings are sequences of characters, so slicing inside a multi-byte character is not modelled.
- The database engine, memory-mapped files, serialization, compression, timing, metrics and logging.
- Storage opening by version, RPC server, protobuf types, Python bindings and node start-up.
- `update_starknet_version` on its own: versions are covered through header appends and reverts.
- Reading of configuration files and command-line parsing; their values are the overrides of `ConfigLoading.ProcessConfig`.
