# A verified model of henchDB's engine

henchDB keeps fast structures in agreement with simple ones: a B+ tree with a map, a join plan with
the query as written, version chains with committed history, a page cache with stored values, sharded
log staging with one ordered log, selection vectors with row-by-row evaluation. This project models
those parts of the engine crate in Dafny and proves the agreement: for all inputs, all reachable states
and all interleavings of the steps the code takes.

The modules follow the engine's files.

- `Bytes`, `BTreeShape`, `BTreeMoves`, `BTreePaths`, `BTreeHeap`, `BTreeBodies`, `BTreeSteps`,
  `BTreeEdits`, `BTreeRange`, `BTree`: the tree as a heap of node bodies changed in place, with a ghost
  tree that the heap stores. The separator convention is the one the code searches by: `keys[i]` bounds
  child `i` from above, inclusively (btree.rs:810, btree.rs:1245); the comment at btree.rs:90 says `<`.
- `Sql`, `Comparisons`: scalar evaluation, and what it means: the order each comparison asks about, NULL,
  the connectives, IN and BETWEEN.
- `JoinOrder`, `JoinExec`, `JoinMeaning`, `JoinRows`, `JoinPlan`, `JoinAnswer`, `JoinQuery`, `Bags`: greedy
  ordering, hash and nested-loop steps, the answer of a query in terms of its rows, and the whole joined
  SELECT.
- `Mvcc`: version chains as a state machine and as a class. The code records history on every install;
  the header comment of db/mvcc.rs says recording is skipped without snapshots, and the code is followed.
- `Epoch`, `Latch`: reclamation and the optimistic latch at the grain of atomic operations.
- `Slotted`, `PageCache`, `Pool`: slotted pages, the page cache, values as fragment chains.
- `WalStage`, `WalCodec`, `Crc`, `Archive`, `Pitr`: log staging, record codec, checksum, segment headers,
  point-in-time selection. `Le` holds little-endian integers.
- `Vector`, `Columns`, `Aggregate`: the vectorised filter, columnar morsels, aggregate folds.
- `Keys`, `Tables`, `Unicode`: order-preserving keys, rows with secondary indexes, and UTF-8, which meets
  the laws asked of text encodings.
- `Validation`, `ForeignKeys`, `ForeignKeyLimits`: what a table stores for a row, referential actions, and
  where their promise ends.

Twelve promises of the code or its comments turn out not to hold everywhere. Each is given a concrete run
or input on which it fails and the condition under which the code keeps it.

- Inserting returns: re-inserting a removed key can retry for ever (`BTree.StrandingIsReachable`); the
  insert returns if and only if the key is not stranded (`BTree.BTree.Insert`).
- A snapshot reads committed history: a pin taken while collected history is being installed is misled
  (`Mvcc.LostPinIsReachable`, `Mvcc.FaithfulIffHistoryHeld`).
- A guard protects what is retired under it: not when a reclaim attempt that saw nobody is under way
  (`Epoch.PinDuringReclaimIsReachable`, `Epoch.RetireeKeptIff`), and no longer once a nested pin publishes
  an epoch past the object's (`Epoch.NestedPinIsReachable`, `Epoch.NestedPinKeepsIff`).
- A hash join is a nested-loop join: it loses pairs of a BOOL and a number, and of an INT and a FLOAT
  that is only equal to it after rounding (`JoinExec.MixedKeysExample`, `JoinExec.HashIsNested`).
- Vectorised evaluation is scalar evaluation: BETWEEN coerces once too often (`Vector.BetweenExample`,
  `Vector.BetweenMirrors`).
- A table definition survives the log: BOOL, DATETIME and TIMESTAMP columns come back with the type of
  the same first letter (`WalCodec.LettersExample`, `WalCodec.DefRoundTrip`).
- A DELETE leaves no reference to a deleted key. Five ways it does: an index lookup misses an equal value
  (`ForeignKeyLimits.MissedDateExample`, `ForeignKeys.LookupComplete`); the reference was written earlier
  in the open transaction, so that the index, which holds committed rows, does not list it
  (`ForeignKeyLimits.OpenTransactionExample`, `ForeignKeyLimits.UntouchedIff`); a row set to NULL is filled
  again by a DEFAULT equal to the key (`ForeignKeyLimits.DefaultExample`,
  `ForeignKeyLimits.DanglesIffDefault`); a row set to NULL through one column keeps its reference through
  another (`ForeignKeyLimits.SecondKeyDangles`); the foreign key references a column other than the
  primary key, which is what the delete path looks for (`ForeignKeyLimits.OtherColumnExample`). Where none
  of these conditions arises a statement leaves nothing dangling among the rows its session sees
  (`ForeignKeys.CheckDeleted`, `ForeignKeys.NothingDangles`).

Floats are real numbers. The rounding of an integer to a float is a parameter, so comparisons, joins and
lookups are exact about it; sums are not rounded.

## Model

| member | source | states |
|---|---|---|
| `Bytes.HeadOrder` | crates/engine/src/btree.rs:98-112 | a smaller four-byte head means a smaller key in byte order |
| `Bytes.LowerBound` | crates/engine/src/btree.rs:1239-1260 | the head-prefiltered binary search returns the first index whose key is at least the target |
| `BTree.BTree.constructor` | crates/engine/src/btree.rs:315-328 | a new tree is valid and stands for the empty map |
| `BTree.BTree.Get` | crates/engine/src/btree.rs:370-407 | point lookup returns exactly what the abstract map holds |
| `BTree.BTree.Range` | crates/engine/src/btree.rs:412-488 | a range scan returns, ascending, exactly the map's entries at or after an inclusive start, after an exclusive one, and likewise for the end |
| `BTree.PointRange` | crates/engine/src/btree.rs:412-488 | a scan from a key to itself is a lookup when both ends are included, and empty for the three other settings |
| `BTreeRange.BoundsMeaning` | crates/engine/src/btree.rs:459-477 | the two tests of a scan in terms of byte order, for each setting of the flags |
| `BTreeRange.Emit` | crates/engine/src/btree.rs:459-477 | one leaf of a scan: whatever the snapshot holds the output stays ascending, and a sorted later leaf adds exactly its inside entries |
| `BTreeRange.Walk` | crates/engine/src/btree.rs:448-488 | over arbitrary leaf snapshots (leaves may change between visits) emitted keys strictly increase and lie inside the bounds |
| `BTree.BTree.SplitChild` | crates/engine/src/btree.rs:1169-1210 | splitting a full child keeps the entries, every invariant and both size bounds, and puts the separator at the routed index |
| `BTreeSteps.SplitStep` | crates/engine/src/btree.rs:1169-1210 | the heap after a split stores the split tree: depth, bounds, leaf chain, heads, no shared or leaked node |
| `BTreeSteps.SeparatorPlace` | crates/engine/src/btree.rs:1169-1210 | the insertion index of the separator is exactly the child's index |
| `BTree.BTree.InsertRec` | crates/engine/src/btree.rs:1118-1167 | one descent ends Done with the map updated (or unchanged on a duplicate), or Restart with the map unchanged exactly when the key is stranded beyond its leaf's last key while a next leaf exists |
| `BTree.BTree.UpsertRec` | crates/engine/src/btree.rs:1037-1076 | the same for upsert, returning the replaced value |
| `BTree.BTree.WrapRoot` | crates/engine/src/btree.rs:590-603 | wrapping a full root keeps the entries and all invariants |
| `BTree.BTree.Insert` | crates/engine/src/btree.rs:586-617 | insert adds exactly the missing key, keeps an existing one, keeps the entry count, and the retry loop returns if and only if the key is not stranded |
| `BTree.BTree.Upsert` | crates/engine/src/btree.rs:619-645 | upsert sets exactly that key and returns the previous value, under the same exact condition |
| `BTree.BTree.UpdateInPlace` | crates/engine/src/btree.rs:651-660 | replaces the value of a present key only |
| `BTree.BTree.DeleteRec` | crates/engine/src/btree.rs:1212-1237 | the leaf edit removes exactly the key and leaves at most one level short of its minimum |
| `BTree.BTree.Borrow` | crates/engine/src/btree.rs:803-881 | borrowing moves one entry across the separator, keeps the entries and cures the short child |
| `BTreeSteps.BorrowStep` | crates/engine/src/btree.rs:803-881 | the heap after a borrow stores the rotated pair with correct bounds, chain and heads |
| `BTree.BTree.Merge` | crates/engine/src/btree.rs:883-959 | merging two siblings keeps the entries, relinks the chain past the freed node and frees exactly one node |
| `BTreeSteps.MergeStep` | crates/engine/src/btree.rs:883-959 | the heap after a merge stores the merged tree within the key limit and holds one node fewer |
| `BTree.BTree.FixChild` | crates/engine/src/btree.rs:769-801 | borrows or merges; afterwards the shortage is gone or has moved one level up |
| `BTree.BTree.FixPass` | crates/engine/src/btree.rs:711-767 | one pass either ends with every node filled or merges and frees a node |
| `BTree.BTree.CollapseRoot` | crates/engine/src/btree.rs:683-709 | a root with one child is replaced by it without changing the entries |
| `BTree.BTree.Remove` | crates/engine/src/btree.rs:665-680 | removes exactly the key and returns its value; the fix-up loop ends because merges free nodes; all shape and fill invariants hold again |
| `BTree.RemoveThenInsert` | crates/engine/src/btree.rs:1131-1135 | after removing the largest key of a leaf that keeps more than the minimum and has a successor, re-inserting it never returns, for any number of descents |
| `BTree.CountDown` | crates/engine/src/btree.rs:586-617 | inserting ever smaller keys into a new tree always returns, and the last of 129 went into a leaf that is more than half full |
| `BTree.Append` | crates/engine/src/btree.rs:586-617 | inserting above every key returns after one descent, in every tree |
| `BTree.GreatestNotStranded` | crates/engine/src/btree.rs:1131-1135 | the search for a key above all others ends in the last leaf, so it is not stranded |
| `BTree.StrandingIsReachable` | crates/engine/src/btree.rs:1131-1135 | from a new tree: after 129 inserts and one remove, inserting the removed key again never returns, for any number of descents |
| `Sql.EvalLocal` | crates/engine/src/sql/eval.rs:16-98 | evaluation depends only on the columns an expression mentions |
| `Comparisons.TestIs` | crates/engine/src/sql/ast.rs:113-122 | for two values of one kind each of the six comparisons is true exactly when the values stand so: numbers and dates by size, texts at their first differing code point, FALSE before TRUE |
| `Comparisons.Trichotomy` | crates/engine/src/types.rs:69-88 | of two values of one kind exactly one is smaller, or they are equal |
| `Comparisons.NumbersCompare` | crates/engine/src/sql/eval.rs:149-173 | an INT against a FLOAT is compared as the float it rounds to, from either side |
| `Comparisons.CoercedCompare` | crates/engine/src/sql/eval.rs:149-173 | a BOOL against an INT is 0 or 1, a text that reads as a date is that date |
| `Comparisons.NullIsFalse` | crates/engine/src/sql/eval.rs:16-80 | no comparison, IN, BETWEEN or LIKE of NULL holds, negated or not |
| `Comparisons.Connectives` | crates/engine/src/sql/eval.rs:16-21 | AND, OR and NOT are those of logic |
| `Comparisons.Failures` | crates/engine/src/sql/eval.rs:16-21 | an operand without a truth value decides unless the left one already has |
| `Comparisons.ColumnsCompare` | crates/engine/src/sql/eval.rs:21-29 | a comparison of columns and literals is that of their values |
| `Comparisons.BareIs` | crates/engine/src/sql/eval.rs:60-88 | a bare value is true when it is TRUE or a number other than zero |
| `Comparisons.LikeIs` | crates/engine/src/sql/eval.rs:58-72 | LIKE matches the text, or another value as it prints; NOT LIKE is the opposite |
| `Comparisons.InIs` | crates/engine/src/sql/eval.rs:30-47 | IN is equality with some listed value, NOT IN with none |
| `Comparisons.BetweenIs` | crates/engine/src/sql/eval.rs:48-57 | BETWEEN is not smaller than the one bound nor larger than the other |
| `JoinOrder.PickReady` | crates/engine/src/db/plan.rs:444-466 | the scan returns the smallest ready INNER join, the earliest on ties, or none when none is ready |
| `JoinOrder.OrderJoins` | crates/engine/src/db/plan.rs:423-481 | a permutation from table 0 that keeps every table written before a LEFT join ahead of it; for valid ON clauses it is the greedy order and every ON clause lies in its prefix |
| `JoinOrder.NothingReady` | crates/engine/src/db/plan.rs:473-477 | with valid ON clauses the nothing-ready fallback is never taken |
| `JoinExec.SameKeys` | crates/engine/src/db/plan.rs:341-361 | values the evaluator calls equal share a hash key if and only if no BOOL meets a number and no INT a FLOAT it only rounds to, whatever the rounding |
| `JoinExec.EquiForces` | crates/engine/src/db/plan.rs:369-394 | a true ON clause makes the pair found by the equi-join search equal, one side in the left rows and one in the new table |
| `JoinExec.NestedLoopStep` | crates/engine/src/db/join.rs:599-632 | computes the join by definition, padding exactly the unmatched left rows under LEFT; fails exactly when ON is not accepted on some pair |
| `JoinExec.BuildTable` | crates/engine/src/db/join.rs:653-676 | every bucket lists, in order, exactly the rows with that hash key |
| `JoinExec.HashJoinStep` | crates/engine/src/db/join.rs:640-729 | the join restricted to pairs whose keys meet: same sequence when the right side is built, a permutation when the left is; fails exactly on a rejected pair whose keys meet |
| `JoinExec.SwappedIsNested` | crates/engine/src/db/join.rs:678-700 | running an INNER join with the right rows outermost permutes the output |
| `JoinExec.HashIsNested` | crates/engine/src/db/join.rs:569-729 | the hash join equals the nested loop, LEFT padding included, if and only if no joined pair has such a mixed pair in its key columns |
| `JoinExec.MixedKeysExample` | crates/engine/src/db/plan.rs:341-361 | BOOL true and INT 1, and INT 2^53 + 1 and the FLOAT 2^53 it rounds to, are joined by the nested loop and not by the hash join |
| `JoinExec.JoinStep` | crates/engine/src/db/join.rs:569-595 | the step the executor picks computes the join |
| `JoinMeaning.RunIsSatisfying` | crates/engine/src/db/join.rs:367-383 | left-deep execution in any order whose ON clauses see only joined tables makes exactly the satisfying row combinations |
| `JoinMeaning.OrderIrrelevant` | crates/engine/src/db/plan.rs:410-422 | two such orders make the same combinations the same number of times, across INNER and LEFT joins |
| `JoinRows.RunFlat` | crates/engine/src/db/join.rs:367-383 | the executor's concatenated rows are the flattened combinations |
| `JoinRows.PushdownKeeps` | crates/engine/src/db/join.rs:328-352 | dropping only rows of FROM or INNER tables that fail WHERE in every combination keeps the filtered result |
| `JoinRows.PlanKeepsAnswer` | crates/engine/src/db/join.rs:266-401 | pre-filtered inputs, any valid order and WHERE give the rows of the query as written, up to row and column order |
| `JoinPlan.LocalPredicate` | crates/engine/src/db/cost.rs:273-304 | the stack loop extracts and rebuilds exactly the local conjuncts of the AND spine |
| `JoinPlan.LocalImplied` | crates/engine/src/db/cost.rs:260-304 | the pushed predicate mentions only its table and is implied by WHERE |
| `JoinQuery.PlanDropsDoomed` | crates/engine/src/db/join.rs:266-278 | a row dropped by pushdown is in no row that passes WHERE |
| `JoinQuery.LeftDeep` | crates/engine/src/db/join.rs:353-383 | the join loop succeeds on sound queries and computes the run of its order |
| `JoinAnswer.AnswerIs` | crates/engine/src/db/join.rs:308-401 | the answer lists once each way to stand rows of the tables side by side, cell by cell, with ON true for each, or NULL in every column of a LEFT table none of whose rows makes ON true, and WHERE true |
| `JoinQuery.SelectJoined` | crates/engine/src/db/join.rs:308-401 | whatever the size estimates, a joined SELECT that succeeds returns the multiset of rows of the written query, each made of such rows or NULLs; a sound query always succeeds |
| `JoinQuery.OneKindDoesNotMix` | crates/engine/src/db/plan.rs:341-361 | when the two columns of each equi-join hold values of one kind no pair is mixed |
| `Mvcc.StepInv` | crates/engine/src/db/mvcc.rs:70-275 | every record, apply, publish, pin, unpin and collection keeps the chain and epoch invariants |
| `Mvcc.ReachableInv` | crates/engine/src/db/mvcc.rs:60-330 | every state reached from an initial one, by any interleaving, has the invariants the results below start from |
| `Mvcc.PinLasts` | crates/engine/src/db/mvcc.rs:350-370 | a pin stays, at its epoch, through every step of any thread but its own end |
| `Mvcc.PointReadIsStable` | crates/engine/src/db/mvcc.rs:185-233 | under every interleaving a snapshot that has not been ended reads the row committed at its epoch, also when tree and versions are read at different times; the history-missing error is not reached |
| `Mvcc.ScanIsStable` | crates/engine/src/db/mvcc.rs:235-275 | each key read from the tree at its own time and resolved at its own later one, with any installs between, plus the swept chains: exactly the table at the snapshot's epoch |
| `Mvcc.FaithfulIffHistoryHeld` | crates/engine/src/db/mvcc.rs:70-84 | a pin is faithful in every continuation if and only if no history of an install in flight was collected |
| `Mvcc.LostPinIsReachable` | crates/engine/src/db/mvcc.rs:70-84 | a run in which collection between record and publish drops that history |
| `Mvcc.QuietPinIsFaithful` | crates/engine/src/db/mvcc.rs:279-306 | a snapshot pinned with no install in flight always reads committed history |
| `Mvcc.VersionBuffer.SnapshotEnd` | crates/engine/src/db/mvcc.rs:350-370 | removes that pin and no other, then collects |
| `Mvcc.VersionBuffer.RecordCommitBatch` | crates/engine/src/db/mvcc.rs:151-183 | records each changed key's superseded row and epoch, skipping writes that change nothing |
| `Mvcc.VersionBuffer.CommitInstall` | crates/engine/src/db/dml.rs:262-281 | record, apply row by row, publish and collect form a run of the state machine |
| `Mvcc.VersionBuffer.GcLocked` | crates/engine/src/db/mvcc.rs:70-84 | collection prunes entries no live reader consults, everything when nothing is pinned |
| `Mvcc.VersionBuffer.Lookup` | crates/engine/src/db/mvcc.rs:185-233 | the chain walk computes the snapshot's row or reports missing history |
| `Mvcc.VersionBuffer.Extra` | crates/engine/src/db/mvcc.rs:235-275 | the sweep returns exactly the keys absent from the tree that the snapshot should see |
| `Epoch.StepInv` | crates/engine/src/epoch.rs:148-308 | every step by any thread, with pins and reclaim attempts in two steps, keeps the epoch invariants; only the threads whose guards are spoken of need nest their pins |
| `Epoch.KeptIff` | crates/engine/src/epoch.rs:250-285 | in every continuation an object pending under a guard is kept while the guard lives if and only if no attempt under way has a horizon past it |
| `Epoch.RetireeKeptIff` | crates/engine/src/epoch.rs:175-285 | an object retired under a live guard is kept in every continuation while it lives if and only if an attempt under way, if any, saw an active thread |
| `Epoch.RetiredOutlivesGuards` | crates/engine/src/epoch.rs:175-214 | in every run, an object retired under a live guard and not under an attempt that saw nobody is not dropped before that guard ends |
| `Epoch.FreedOutlivesGuards` | crates/engine/src/page.rs:694-721 | slots freed while a guard is live stay quarantined as long as it lives |
| `Epoch.GuardHoldsEpoch` | crates/engine/src/epoch.rs:250-285 | the global epoch is at most one past its value when a live guard was published |
| `Epoch.Conservation` | crates/engine/src/epoch.rs:278-285 | retired equals reclaimed plus pending in every run |
| `Epoch.IdleReclaims` | crates/engine/src/epoch.rs:250-285 | with no guard live, one attempt drops everything pending |
| `Epoch.NestedPinKeepsIff` | crates/engine/src/epoch.rs:148-172 | after a nested pin is published an object pending under the outer guard is kept in every continuation while that guard lives if and only if it was before and the published epoch is not past it |
| `Epoch.NestedPinSafeIff` | crates/engine/src/epoch.rs:148-172 | with no attempt under way, the nested pin leaves everything pending under the outer guard protected if and only if nothing pending was retired under it before the published epoch |
| `Epoch.NestedPinIsReachable` | crates/engine/src/epoch.rs:148-172 | a run that reaches a nested pin which loses an object protected before |
| `Epoch.PinDuringReclaimIsReachable` | crates/engine/src/epoch.rs:250-285 | a run that reaches a guard, published between the two halves of an attempt, which does not protect what is retired next |
| `Epoch.EpochManager.ReadParticipants` | crates/engine/src/epoch.rs:250-267 | forgets exited threads and computes the oldest active epoch and whether all are current |
| `Epoch.EpochManager.DropRetired` | crates/engine/src/epoch.rs:269-285 | advances the epoch when allowed and keeps exactly the objects at or after the horizon |
| `Epoch.EpochManager.ReleaseSlots` | crates/engine/src/page.rs:695-721 | exactly the entries two epochs old leave the quarantine, both parts in order |
| `Latch.StepInv` | crates/engine/src/latch.rs:33-89 | every atomic operation keeps the word equal to the unlock count modulo 2^63 and the lock bit equal to ownership |
| `Latch.MutualExclusion` | crates/engine/src/latch.rs:62-83 | at most one thread holds the latch in every state of every run |
| `Latch.FreshVersion` | crates/engine/src/latch.rs:85-89 | each unlock publishes an even word different from the last 2^63 - 1 unlocked ones |
| `Latch.ValidateExactly` | crates/engine/src/latch.rs:33-47 | validation succeeds if and only if the latch is free and a multiple of 2^63 unlocks lie between |
| `Latch.ValidatedReadIsStable` | crates/engine/src/btree.rs:172-266 | a validated reader read the one body published during its whole interval, within 2^63 unlocks |
| `Latch.HybridLatch.TryLock` | crates/engine/src/latch.rs:62-83 | one round of the acquiring loop takes the latch exactly when the loaded word is unlocked and current |
| `Latch.HybridLatch.UnlockExclusive` | crates/engine/src/latch.rs:85-89 | clears the lock bit and advances the version in one addition |
| `Slotted.InsertContent` | crates/engine/src/page.rs:228-252 | an insert fills an unused slot and changes no other record |
| `Slotted.FreeContent` | crates/engine/src/page.rs:265-276 | freeing empties one slot and changes no other record |
| `Slotted.GetIsContent` | crates/engine/src/page.rs:254-263 | the bounds checks of a read never reject a live record of a well-formed page |
| `Slotted.FreshFits` | crates/engine/src/page.rs:71-76 | a maximal fragment always fits a fresh page |
| `PageCache.Cache.VictimFrame` | crates/engine/src/page.rs:648-675 | a free frame if there is one, else the oldest cooling frame, else the picked one, emptied; page table and frames stay inverse, the cooling queue exact |
| `PageCache.Cache.FixPage` | crates/engine/src/page.rs:614-644 | hit, reheat or fault: the page is resident and equal to disk, pending frees are applied, and no fragment changes |
| `PageCache.Cache.MaybeCool` | crates/engine/src/page.rs:679-692 | cools exactly the first hot sample, if any and the queue has room, keeping all cache invariants |
| `PageCache.BestFit` | crates/engine/src/page.rs:729-737 | finds a page with the least sufficient known free space |
| `PageCache.Cache.InsertFrag` | crates/engine/src/page.rs:723-763 | stores the fragment in an unused slot, changes nothing else, fails only when page ids run out |
| `PageCache.Cache.FreeFrag` | crates/engine/src/page.rs:704-716 | frees exactly that fragment, at once or lazily |
| `Pool.ParseRec` | crates/engine/src/page.rs:852-895 | reading back a fragment gives its total, its successor and its chunk |
| `Pool.BufferPool.ReclaimQuarantine` | crates/engine/src/page.rs:695-721 | releasing expired entries changes no live value |
| `Pool.BufferPool.Store` | crates/engine/src/page.rs:769-840 | adds exactly one value under a locator that was not live, across evictions and chained pages |
| `Pool.BufferPool.Load` | crates/engine/src/page.rs:843-901 | returns exactly the bytes stored under a live locator |
| `Pool.BufferPool.Free` | crates/engine/src/page.rs:905-945 | removes exactly that value; its fragments are quarantined, no other value changes |
| `WalStage.StepInv` | crates/engine/src/wal.rs:402-574 | every step of appenders and of a syncer round, interleaved, keeps queues equal to slices of the reservation order |
| `WalStage.StagedTile` | crates/engine/src/wal.rs:402-431 | between rounds staged segments and the unstaged reservation tile the gap to the reserved frontier, queues are sorted, durable <= file_written <= written |
| `WalStage.GapMeansDrained` | crates/engine/src/wal.rs:491-520 | a drain meets a gap only when every queue is empty and one reservation is in flight |
| `WalStage.DurableIsSynced` | crates/engine/src/wal.rs:437-459 | every reservation ending at or below the durable frontier is on disk at its offset, in reservation order |
| `WalStage.FailedWriteRestores` | crates/engine/src/wal.rs:540-556 | a failed write leaves each queue as before the round, followed by what was staged meanwhile |
| `WalStage.FailedSyncFreezes` | crates/engine/src/wal.rs:558-574 | after a failed sync no later round moves a byte and the durable frontier stays |
| `WalStage.WalShared.AppendRecords` | crates/engine/src/wal.rs:402-431 | reserves and stages contiguously from the written frontier |
| `WalStage.WalShared.DrainAvailable` | crates/engine/src/wal.rs:491-520 | pops the next reservations in offset order until the cap, the reserved frontier or a gap |
| `WalStage.WalShared.WriteAndSync` | crates/engine/src/wal.rs:529-574 | appends the batch and advances the frontiers, or requeues it and leaves them |
| `Pitr.SelectionKeepsRedo` | crates/engine/src/pitr.rs:176-212 | emitting each transaction at its commit redoes the same operations in the same order, keeps the commit sequence, leaves nothing dangling |
| `Pitr.SelectionIsIdempotent` | crates/engine/src/pitr.rs:176-212 | selecting from a selected log changes nothing |
| `Pitr.RedoIs` | crates/engine/src/pitr.rs:152-216 | a redo applies exactly the operations whose transaction commits after them, each once, in the order of the commits and within a transaction in log order |
| `Pitr.TargetIsMet` | crates/engine/src/pitr.rs:152-216 | the rewritten log redoes exactly the archived log before the first commit that is the target transaction or stamped strictly after the limit; its commits are the longest prefix without one |
| `Pitr.SelectTransactions` | crates/engine/src/pitr.rs:152-216 | the selection loop over segments computes that log and exact statistics |
| `Pitr.RedoLog` | crates/engine/src/db/mod.rs:283-297 | buffering per transaction and applying on commit is the redo of the log |
| `Crc.FeedByte` | crates/engine/src/wal.rs:1128-1150 | eight table-free steps equal feeding the byte's bits one by one |
| `Crc.TableFeeds` | crates/engine/src/wal.rs:1128-1150 | one table-driven step is one byte of the bit-by-bit division |
| `Crc.Crc32` | crates/engine/src/wal.rs:1128-1150 | the table-driven checksum equals division bit by bit |
| `Crc.TableCrc` | crates/engine/src/backup.rs:97-119 | the running form continues the division from any register |
| `Crc.Incremental` | crates/engine/src/backup.rs:97-119 | the division is incremental over concatenation |
| `Crc.OneByteChange` | crates/engine/src/wal.rs:1128-1150 | changing any one byte of data of any length changes the checksum |
| `Crc.Generator` | crates/engine/src/wal.rs:1128-1150 | the polynomial by its exponents |
| `Crc.KnownChecksums` | crates/engine/src/wal.rs:1128-1150 | the checksums of no bytes and of "a" |
| `Archive.HeaderRoundTrip` | crates/engine/src/archive.rs:129-178 | a header decodes to itself if and only if its offsets, length and index are plausible |
| `Archive.OneByteChangeRejected` | crates/engine/src/archive.rs:145-178 | every one-byte change of every encoded header is rejected |
| `WalCodec.RecordBack` | crates/engine/src/wal.rs:760-897 | every record kind decodes back, table definitions up to the type letters |
| `WalCodec.DefRoundTrip` | crates/engine/src/wal.rs:943-1111 | a table definition round-trips if and only if no column is BOOL, DATETIME or TIMESTAMP |
| `WalCodec.LettersExample` | crates/engine/src/wal.rs:943-1111 | a definition with BOOL, DATETIME and TIMESTAMP columns comes back with BIGINT, DOUBLE and TEXT |
| `WalCodec.DecodeWalRange` | crates/engine/src/wal.rs:369-394 | the loop returns all whole frames from the front and the bytes they occupy |
| `WalCodec.Resume` | crates/engine/src/wal.rs:364-394 | for every byte string and cut, decoding a prefix and resuming equals decoding at once |
| `WalCodec.CutDecodes` | crates/engine/src/wal.rs:364-394 | every cut of every encoding yields exactly the records whose frames are complete |
| `Vector.SubtractSorted` | crates/engine/src/db/batch.rs:470-485 | ascending difference |
| `Vector.UnionSorted` | crates/engine/src/db/batch.rs:487-506 | ascending union |
| `Vector.CompareMirrors` | crates/engine/src/db/batch.rs:570-608 | the fused comparison agrees with coercing and comparing, for every operator |
| `Vector.InMatchList` | crates/engine/src/db/batch.rs:617-651 | list membership as the scalar loop decides it |
| `Vector.BetweenMirrors` | crates/engine/src/db/batch.rs:738-764 | vectorised BETWEEN agrees with the scalar one if and only if its bounds are not coerced once more |
| `Vector.BetweenExample` | crates/engine/src/db/batch.rs:738-764 | FALSE BETWEEN TRUE AND 5 holds for the scalar evaluator and not for the batch |
| `Vector.VecIsScalar` | crates/engine/src/db/batch.rs:10-27 | on plain predicates vector and scalar evaluation agree on every row, errors included |
| `Vector.EvalNode` | crates/engine/src/db/batch.rs:678-820 | for every predicate tree and ascending input, exactly the rows evaluated true and exactly those failing on an unknown column, in order |
| `Vector.FilterIsScalar` | crates/engine/src/db/batch.rs:908-918 | the kept rows are those the scalar evaluator accepts; the two result sets are ascending and disjoint |
| `Columns.PushHolds` | crates/engine/src/db/batch.rs:331-396 | pushing a cell appends exactly that value to its column, packed text included |
| `Columns.ColumnBatch.PushDatumRow` | crates/engine/src/db/batch.rs:331-396 | succeeds exactly when every needed column takes its value, and appends exactly those |
| `Columns.ColumnBatch.PushRawRow` | crates/engine/src/db/batch.rs:192-328 | on an encoded row fills the columns as the value path does, and succeeds exactly when that does and the widths agree |
| `Columns.DecodeMorsel` | crates/engine/src/db/batch.rs:419-432 | on at most 1024 rows it succeeds exactly when every needed column takes all its values, and then each holds exactly its values of those rows, in order |
| `Aggregate.FoldColumn` | crates/engine/src/db/batch.rs:1108-1113 | folds the active rows in order, stopping at the first type mismatch |
| `Aggregate.MorselsCompose` | crates/engine/src/db/batch.rs:928-1050 | folding morsel by morsel equals folding all rows at once, errors included |
| `Aggregate.SumMeaning` | crates/engine/src/db/batch.rs:950-1050 | SUM and AVG hold the sums and the count of present numbers, and reject exactly non-numbers |
| `Aggregate.ResultMeaning` | crates/engine/src/db/batch.rs:1023-1048 | SUM is NULL exactly without numbers and else equals the exact total, an INT exactly when all are and it fits; AVG times the count is the total |
| `Aggregate.ExtremaMeaning` | crates/engine/src/db/batch.rs:950-1050 | for every order-preserving rounding, MIN and MAX are an extremum of the present values, none when there is none |
| `Aggregate.ExtremaResult` | crates/engine/src/db/batch.rs:1023-1048 | MIN and MAX report NULL exactly without values, else one of the values with none smaller, or none greater |
| `Validation.Validate` | crates/engine/src/table.rs:375-432 | defaults, NOT NULL, coercions and type checks column by column give the row as stored, or refuse it |
| `Validation.ValidateAgain` | crates/engine/src/table.rs:375-432 | storing a stored row changes nothing |
| `Validation.NullStored` | crates/engine/src/table.rs:388-432 | setting one column of a stored row to NULL stores the column's DEFAULT there, if it has one, changes nothing else, and is refused exactly when the column stores nothing for NULL |
| `Validation.StoredIs` | crates/engine/src/table.rs:408-428 | what each column type stores: a BOOL as the INT it equals, an INT as FALSE exactly when zero, date texts as their dates, seconds as their moment, anything else as it is |
| `ForeignKeys.LookupComplete` | crates/engine/src/db/fk.rs:33-51 | an equal value is among the index lookup keys if and only if it is not a BOOL against a number, an INT against a FLOAT it only rounds to, or a non-canonical date text |
| `ForeignKeys.OverlookedCommitted` | crates/engine/src/db/fk.rs:240-262 | where the session sees the committed cell, the index lookup overlooks a reference if and only if it misses the value |
| `ForeignKeys.FindChildRefs` | crates/engine/src/db/fk.rs:210-273 | returns exactly the current referencing rows that are written by the statement or an action, found by a scan, or listed by the index of committed rows |
| `ForeignKeys.FindsAllIff` | crates/engine/src/db/fk.rs:210-273 | the lookup returns every current reference if and only if each overlooked row was acted on before |
| `ForeignKeys.Cascader.OnParentDelete` | crates/engine/src/db/fk.rs:280-356 | terminates on cyclic schemas; on success every referencing row seen has been acted on, for the key and every key deleted on the way, and what still refers to them was overlooked or set to NULL; every action is justified by an earlier deletion; on failure some row found is refused |
| `ForeignKeys.Cascader.ActOnChild` | crates/engine/src/db/fk.rs:289-354 | the same for one foreign key: RESTRICT, CASCADE or SET NULL with the row validated again |
| `ForeignKeys.LawfulUnreferenced` | crates/engine/src/db/fk.rs:280-356 | when no reference the session sees is overlooked by the index of committed rows, no DEFAULT of a SET NULL column equals the key, and each SET NULL key into a table the deletes can reach by CASCADE shares its column with the child's keys that do not refuse, a key that has been dealt with has no reference left |
| `ForeignKeys.CheckDeleted` | crates/engine/src/db/fk.rs:562-595 | in any order of its deletes: a DELETE that succeeds leaves no surviving row referring to a deleted key, direct or cascaded, for which those conditions held before; every action is reached from a direct delete; it fails only if a row found to refer to a deleted key meets RESTRICT, SET NULL on a NOT NULL column, or fails validation |
| `ForeignKeys.NothingDangles` | crates/engine/src/db/fk.rs:562-595 | under those conditions, and when the deleted row held its own key in the referenced column, no surviving row refers to its referenced value |
| `ForeignKeyLimits.PlainIsLawful` | crates/engine/src/db/fk.rs:280-356 | without SET NULL keys and open writes, and with columns of the kind of the key they reference, the conditions hold |
| `ForeignKeyLimits.DanglesIffDefault` | crates/engine/src/db/fk.rs:330-352 | a row found to refer to a deleted key through SET NULL still refers to it afterwards if and only if the column's DEFAULT does |
| `ForeignKeyLimits.DefaultExample` | crates/engine/src/table.rs:399-401 | `p_id INT DEFAULT 1` ON DELETE SET NULL, row (10, 1): deleting key 1 succeeds and the row refers to it |
| `ForeignKeyLimits.MissedExample` | crates/engine/src/db/fk.rs:33-51 | a text that parses to a DATETIME key without being its canonical form passes the lookup of the insert check, is missed by the one on delete, and a RESTRICT key lets the parent go |
| `ForeignKeyLimits.MissedDateExample` | crates/engine/src/db/fk.rs:33-51 | the text '2024-01-01' against the key 2024-01-01 00:00:00 |
| `ForeignKeyLimits.UntouchedIff` | crates/engine/src/db/fk.rs:210-356 | a successful DELETE leaves a row as it was if and only if every reference of the row to a deleted key is overlooked, and then the references stay |
| `ForeignKeyLimits.ActionIs` | crates/engine/src/db/fk.rs:289-354 | an acted-on row referred to a deleted one: it is gone through a CASCADE key, or through a SET NULL key on a nullable column has NULL, or what the column stores of its DEFAULT, there and every other cell unchanged |
| `ForeignKeyLimits.RestrictHolds` | crates/engine/src/db/fk.rs:303-309 | a DELETE that succeeds has found no row that refers to deleted keys only through RESTRICT keys |
| `ForeignKeyLimits.OpenTransactionExample` | crates/engine/src/db/fk.rs:240-262 | a child row inserted, or moved to key 1, earlier in the open transaction: the lookup finds nothing, and under RESTRICT, CASCADE or SET NULL deleting key 1 succeeds and the row dangles |
| `ForeignKeyLimits.OtherColumnExample` | crates/engine/src/db/fk.rs:562-595 | with a key that references another column, deleting a row whose value there is not its key succeeds without an action and its children dangle |
| `ForeignKeyLimits.SecondKeyDangles` | crates/engine/src/db/fk.rs:330-352 | for every schema with a SET NULL key and a second CASCADE or SET NULL key on another column of one child there are tables, a row and two deletes that succeed and leave the row referring to a deleted key |
| `Keys.EscapeOrder` | crates/engine/src/types.rs:318-331 | escaped texts, embedded zero bytes included, compare as the texts do and then by what follows |
| `Keys.ReadText` | crates/engine/src/types.rs:381-408 | the decoding loop inverts the escape and rejects malformed input |
| `Keys.KeyBack` | crates/engine/src/types.rs:236-299 | decoding inverts the primary key encoding |
| `Keys.KeyOrder` | crates/engine/src/types.rs:236-266 | byte order of primary keys is value order within a kind |
| `Keys.SecKeyBack` | crates/engine/src/types.rs:346-426 | decoding inverts the index entry encoding |
| `Keys.SecKeyOrder` | crates/engine/src/types.rs:302-351 | byte order of index entries is lexicographic (value, primary key) order with NULL first |
| `Unicode.Utf8IsOk` | crates/engine/src/types.rs:236-266 | UTF-8 is decodable and keeps code point order, as the key encodings ask |
| `Unicode.CodecIsOk` | crates/engine/src/types.rs:98-125 | UTF-8 is read back, as the row and record encodings ask |
| `Tables.Table.InsertRow` | crates/engine/src/table.rs:440-463 | stores a new row or reports the duplicate; every index stays the image of the table |
| `Tables.Table.UpsertRow` | crates/engine/src/table.rs:466-500 | replaces or adds the row, returns the previous one, keeps every index exact |
| `Tables.Table.UpdateRow` | crates/engine/src/table.rs:504-529 | replaces only an existing row, keeps every index exact |
| `Tables.Table.DeleteRow` | crates/engine/src/table.rs:531-549 | removes the row of that key value with its entries; NULL is an error |
| `Tables.Table.RemoveRaw` | crates/engine/src/table.rs:801-816 | removes the row and exactly its entries |
| `Tables.ScanSecondary` | crates/engine/src/table.rs:667-712 | for bounds of the column's kind, exactly the entries in bounds, in (value, primary key) order |
| `Comparisons.BoundsAreComparisons` | crates/engine/src/table.rs:667-712 | a value is inside an index bound exactly when the comparison `<`, `<=`, `>` or `>=` with it evaluates to true |
| `Comparisons.SameIsEquality` | crates/engine/src/db/fk.rs:22-29 | values match in a foreign key, and meet in an equi-join, exactly when `=` evaluates to true |

## Left out

- `BTree.BTree.Insert`: the unbounded retry loop is given a number of attempts; the contract says exactly when any number suffices.
- `BTree.BTree.Upsert`: the same bound on attempts.
- `Latch.HybridLatch.TryLock`: one round of the spin loop; how often threads retry is not modelled.
- `JoinQuery.SelectJoined`: column names are already resolved to tables, so ambiguity of bare names is not modelled; projection, ORDER BY, LIMIT, grouping, memory limits and deadlines follow the stages modelled and are absent.
- `Epoch.RetiredOutlivesGuards`: guards of one thread are dropped innermost first, and retirement is one step.
- `Pool.BufferPool.Free`: expects a live locator, as each locator is freed at most once; fragments on evicted pages leak, as in the code.
- `PageCache.Cache.InsertFrag`: file reads and writes succeed; random frame choices are arguments.
- `BTree.StrandingIsReachable`: as `BTree.BTree.Insert`, for a number of attempts.
- `Slotted.FreeContent`: directory entries and counters are numbers.
- `Slotted.GetIsContent`: directory entries and counters are numbers.
- `Slotted.InsertContent`: directory entries and counters are numbers, not their bytes in the page header, and pages are values that are replaced; page checksums and `compact`, which the pool never calls, are absent.
- `WalStage.WalShared.DrainAvailable`: truncation of the log at a checkpoint is absent.
- `WalCodec.RecordBack`: definitions carry no statistics, only the current format version is read, and the codec is written over values instead of a moving offset except for the frame loop.
- `Vector.VecIsScalar`: floats are real numbers, so NaN and signed zero are absent everywhere in this project.
- `Aggregate.SumMeaning`: sums are of real numbers, where the code adds 64-bit floats with rounding.
- `Aggregate.ResultMeaning`: totals and averages are exact over real numbers, where the code rounds.
- `Columns.ColumnBatch.PushRawRow`: float bits are a parameter, and a float value is asked to be the number its bits stand for; UTF-8 is a parameter that reads texts back, a law `Unicode.CodecIsOk` shows UTF-8 to meet.
- `Columns.DecodeMorsel`: the selection vector of row numbers is absent.
- `Keys.KeyOrder`: float keys are absent, since NaN and negative zero break the key codec and FLOAT columns may hold integers of another tag.
- `Keys.SecKeyOrder`: UTF-8 is a parameter that preserves code point order, as `Unicode.Utf8IsOk` shows of UTF-8.
- `Tables.ScanSecondary`: the trees are their contents, as proved of the B+ tree; overflow paging of wide rows is absent there.
- `ForeignKeys.CheckDeleted`: speaks of one statement and of the rows its session sees; the commit rechecks nothing, so references another session commits meanwhile are outside it. Updates of referenced keys and child-side insert checks are absent.
- `ForeignKeyLimits.SecondKeyDangles`: not for schemas with a further key over the same column and parent that refuses, or acts before the SET NULL key; when the two keys reference different tables the deletes are of both, which one DELETE makes only through cascades.
- `Validation.Validate`: an INT of seconds stored in a DATETIME column is multiplied with wrap-around.
- `Mvcc.PointReadIsStable`: tables are not dropped during a run, so purging their versions is absent.
- Full linearizability of concurrent tree writers: the sequential tree and the per-node latch protocol are proved separately.
- Date parsing, LIKE matching and value display are parameters of evaluation.
- Access-path choice, cost numbers, subqueries, EXPLAIN and statistics.
- SQL parsing, sessions, the server crate, replication, metrics, lock ranks and memory accounting.
- Real files, fsync, partial writes, clocks and timeouts.
