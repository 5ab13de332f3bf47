# ExpectedValueCheckingTransaction, modelled and verified in Dafny

This project models the transaction wrapper in Titan's consistent-key locking
layer, `ExpectedValueCheckingTransaction`. Titan is the graph database that
later became JanusGraph.

The transaction pairs two store transactions:

- an inconsistent (weak) transaction, for client data;
- a strongly consistent transaction, for lock records and verification reads.

While locks are being acquired, the store layer hands the transaction an
expected value for every locked cell. The expectation is either a value or
"absent" (Java `null`). The transaction keeps these in a per-store table.

Before the first mutation, the gate `prepareForMutations` does three things:

1. It asks the Locker of every touched store to confirm its locks.
2. It re-reads every locked cell through a slice read of the strong
   transaction, and compares what it finds with the expectation.
3. Only when both steps succeed does it enter the mutation stage.

`commit` and `rollback` release the locks of every touched store, between and
around the commits and rollbacks of the two wrapped transactions.

## Modules

- `LockingTypes` (`locking_types.dfy`) holds the value types:
  - byte strings;
  - cell addresses (`KeyColumn`);
  - slice entries and queries;
  - the backend errors, temporary or permanent, and the permanent
    expected-value mismatch;
  - a `Status` that is `Ok` or `Raised(error)`, for calls that return nothing
    or throw.
- `ExpectationTable` (`expectation_table.dfy`) holds the table
  `expectedValuesByStore` as a map of maps. It also defines `WithBucket` and
  `WithExpectation`, the pure effects of `lockedOn` and `storeExpectedValue`,
  with first-write-wins lemmas.
- `ExpectedValueCheck` (`expected_value_check.dfy`) holds the comparison that
  ends `checkSingleExpectedValueUnsafe`:
  - a null read counts as empty;
  - only entries whose column is byte-identical to the locked column are
    kept;
  - their values are compared, in order and by length, with `[]` or `[ev]`.

  The module proves what success means for an absent expectation and for a
  present one. It also proves that neighbouring columns are ignored, and that
  when the store answers faithfully, the check succeeds exactly when the
  expectation equals the stored cell.
- `CallTrace` (`call_trace.dfy`) models the collaborators as one datatype of
  oracles, each of which may fail:
  - Locker presence and `checkLocks`;
  - the successor buffer;
  - the slice read;
  - `deleteLocks`;
  - the wrapped commits and rollbacks.

  The module also defines the calls the transaction makes, and what running a
  list of calls does: the calls are made up to and including the first that
  raises, and that error propagates. It proves the protocol lemmas about
  coverage, ordering and success for the gate, commit and rollback.
- `ExpectedValueCheckingTransactions` (`expected_value_checking_transaction.dfy`)
  holds the class `ExpectedValueCheckingTransaction`:
  - the mutable fields `isMutationStarted` and `expectedValuesByStore`;
  - a constant field `env` for the collaborators;
  - a ghost trace `calls` of every call made into a collaborator.

  Each Java method is a Dafny method. Each loop over a `keySet()` is a `while`
  loop that picks any remaining key, because HashMap order is unspecified. Each
  loop method also returns a ghost `plan`, which lists every call it had to make
  once, in the order it chose. Its postcondition states three things:
  - the trace grew by exactly the executed prefix of that plan;
  - the result is the plan's first failure;
  - the plan covers exactly the calls the source makes.

## Model

| member | source | states |
|---|---|---|
| ExpectedValueCheckingTransactions.ExpectedValueCheckingTransaction.constructor | titan-core/src/main/java/com/thinkaurelius/titan/diskstorage/locking/consistentkey/ExpectedValueCheckingTransaction.java:39-68 | a new transaction is in the locking stage, holds no expectations and has made no calls |
| ExpectedValueCheckingTransactions.ExpectedValueCheckingTransaction.IsMutationStarted | titan-core/src/main/java/com/thinkaurelius/titan/diskstorage/locking/consistentkey/ExpectedValueCheckingTransaction.java:96-98 | answers the flag and changes nothing |
| ExpectedValueCheckingTransactions.ExpectedValueCheckingTransaction.MutationStarted | titan-core/src/main/java/com/thinkaurelius/titan/diskstorage/locking/consistentkey/ExpectedValueCheckingTransaction.java:194-196 | sets the flag and touches nothing else (the frame is the flag alone) |
| ExpectedValueCheckingTransactions.ExpectedValueCheckingTransaction.LockedOn | titan-core/src/main/java/com/thinkaurelius/titan/diskstorage/locking/consistentkey/ExpectedValueCheckingTransaction.java:198-205 | the table becomes `WithBucket` of the old table: the store gets an empty bucket only if it had none |
| ExpectedValueCheckingTransactions.ExpectedValueCheckingTransaction.StoreExpectedValue | titan-core/src/main/java/com/thinkaurelius/titan/diskstorage/locking/consistentkey/ExpectedValueCheckingTransaction.java:113-127 | the table becomes `WithExpectation` of the old table, so no touched store is ever forgotten |
| ExpectationTable.WithBucket | titan-core/src/main/java/com/thinkaurelius/titan/diskstorage/locking/consistentkey/ExpectedValueCheckingTransaction.java:198-205 | the touched stores gain exactly `store`; an existing bucket is kept as it was; other stores are unchanged |
| ExpectationTable.WithExpectation | titan-core/src/main/java/com/thinkaurelius/titan/diskstorage/locking/consistentkey/ExpectedValueCheckingTransaction.java:113-127 | the store is touched; the bucket gains exactly `kc`; the cell keeps an earlier value if there was one and otherwise takes `value`; every other store and cell is unchanged |
| ExpectationTable.RegisteredCellIsKept | titan-core/src/main/java/com/thinkaurelius/titan/diskstorage/locking/consistentkey/ExpectedValueCheckingTransaction.java:120-122 | registering a cell that already has an expectation leaves the whole table unchanged |
| ExpectationTable.FirstWriteWins | titan-core/src/main/java/com/thinkaurelius/titan/diskstorage/locking/consistentkey/ExpectedValueCheckingTransaction.java:113-127 | of two registrations for one cell, the second is discarded whatever the values are, and the cell holds the first (or the value it already had) |
| ExpectationTable.RegistrationTouchesStore | titan-core/src/main/java/com/thinkaurelius/titan/diskstorage/locking/consistentkey/ExpectedValueCheckingTransaction.java:113-127 | registering an "expected absent" cell still touches the store, so the table is not empty |
| ExpectedValueCheck.ReadEntries | titan-core/src/main/java/com/thinkaurelius/titan/diskstorage/locking/consistentkey/ExpectedValueCheckingTransaction.java:229-230 | definition: a read that returned null counts as a read of no entries |
| ExpectedValueCheck.ExpectedValues | titan-core/src/main/java/com/thinkaurelius/titan/diskstorage/locking/consistentkey/ExpectedValueCheckingTransaction.java:263-269 | definition: the expected list is `[]` for an absent expectation and `[ev]` otherwise |
| ExpectedValueCheck.ActualValues | titan-core/src/main/java/com/thinkaurelius/titan/diskstorage/locking/consistentkey/ExpectedValueCheckingTransaction.java:238-261 | definition: the values of the entries at exactly the locked column, in read order (filter, then projection) |
| ExpectedValueCheck.CheckSlice | titan-core/src/main/java/com/thinkaurelius/titan/diskstorage/locking/consistentkey/ExpectedValueCheckingTransaction.java:229-275 | definition of the single-cell verdict: `Ok` when the expected list equals the found list element by element and in length, otherwise the permanent mismatch naming cell, store and both lists; its meaning is proved by the lemmas below |
| ExpectedValueCheck.KeepColumn | titan-core/src/main/java/com/thinkaurelius/titan/diskstorage/locking/consistentkey/ExpectedValueCheckingTransaction.java:238-248 | an entry is kept exactly when it was read and its column equals the locked column; the result is never longer than the read |
| ExpectedValueCheck.Values | titan-core/src/main/java/com/thinkaurelius/titan/diskstorage/locking/consistentkey/ExpectedValueCheckingTransaction.java:251-261 | the values of the kept entries, one per entry, in read order |
| ExpectedValueCheck.KeepColumnAppend | titan-core/src/main/java/com/thinkaurelius/titan/diskstorage/locking/consistentkey/ExpectedValueCheckingTransaction.java:238-248 | the column filter keeps read order: filtering a concatenation concatenates the filtered parts |
| ExpectedValueCheck.KeepColumnEmpty | titan-core/src/main/java/com/thinkaurelius/titan/diskstorage/locking/consistentkey/ExpectedValueCheckingTransaction.java:238-248 | the filter keeps nothing if and only if no entry is at the locked column |
| ExpectedValueCheck.KeepColumnSingle | titan-core/src/main/java/com/thinkaurelius/titan/diskstorage/locking/consistentkey/ExpectedValueCheckingTransaction.java:238-248 | the filter keeps exactly `[Entry(column, v)]` if and only if that is the only entry at the column |
| ExpectedValueCheck.AbsentExpectation | titan-core/src/main/java/com/thinkaurelius/titan/diskstorage/locking/consistentkey/ExpectedValueCheckingTransaction.java:229-271 | an absent expectation passes if and only if the read has no entry at the locked column; a null read passes |
| ExpectedValueCheck.PresentExpectation | titan-core/src/main/java/com/thinkaurelius/titan/diskstorage/locking/consistentkey/ExpectedValueCheckingTransaction.java:229-271 | an expectation `v` passes if and only if the read has exactly one entry at the column, holding `v`; a null read fails it, and so do duplicates |
| ExpectedValueCheck.MismatchIsPermanent | titan-core/src/main/java/com/thinkaurelius/titan/diskstorage/locking/consistentkey/ExpectedValueCheckingTransaction.java:271-274 | every failure is a permanent mismatch carrying the cell, the store, the expected list and the list actually found |
| ExpectedValueCheck.NeighbourIgnored | titan-core/src/main/java/com/thinkaurelius/titan/diskstorage/locking/consistentkey/ExpectedValueCheckingTransaction.java:232-248 | an entry at any other column, wherever it appears in the read, does not change the outcome |
| ExpectedValueCheck.FaithfulSliceDecides | titan-core/src/main/java/com/thinkaurelius/titan/diskstorage/locking/consistentkey/ExpectedValueCheckingTransaction.java:224-271 | when the upper bound is above the column and the store answers the range query faithfully, the check passes if and only if the expectation equals the stored cell (absent meaning absent) |
| ExpectedValueCheck.PresentValueMatches | titan-core/src/main/java/com/thinkaurelius/titan/diskstorage/locking/consistentkey/ExpectedValueCheckingTransaction.java:263-271 | example: expected `v1` and read `[(c, v1)]` passes |
| ExpectedValueCheck.AbsentIgnoresNeighbour | titan-core/src/main/java/com/thinkaurelius/titan/diskstorage/locking/consistentkey/ExpectedValueCheckingTransaction.java:238-271 | example: expected absent, and a read holding only another column, passes |
| ExpectedValueCheck.ChangedValueMismatches | titan-core/src/main/java/com/thinkaurelius/titan/diskstorage/locking/consistentkey/ExpectedValueCheckingTransaction.java:271-274 | example: expected `v1` and read `[(c, v2)]` with `v1 != v2` raises the mismatch for `[v1]` against `[v2]` |
| CallTrace.SliceQuery | titan-core/src/main/java/com/thinkaurelius/titan/diskstorage/locking/consistentkey/ExpectedValueCheckingTransaction.java:224-225 | definition: the verification read targets row `kc.key`, from the column (inclusive) to the successor buffer of the column (exclusive) |
| CallTrace.Outcome | titan-core/src/main/java/com/thinkaurelius/titan/diskstorage/locking/consistentkey/ExpectedValueCheckingTransaction.java:156-227 | definition: how each collaborator call ends; a value check fails with the read error, or else ends with `CheckSlice` on the entries read for `SliceQuery` |
| CallTrace.FirstFailure | titan-core/src/main/java/com/thinkaurelius/titan/diskstorage/locking/consistentkey/ExpectedValueCheckingTransaction.java:140-147 | definition of exception propagation: the outcome of a list of calls is the error of its first raising call, or `Ok` |
| CallTrace.LockCheckCalls | titan-core/src/main/java/com/thinkaurelius/titan/diskstorage/locking/consistentkey/ExpectedValueCheckingTransaction.java:156-165 | definition: the lock checks to make, one `checkLocks` per touched store whose Locker is present |
| CallTrace.ValueCheckCalls | titan-core/src/main/java/com/thinkaurelius/titan/diskstorage/locking/consistentkey/ExpectedValueCheckingTransaction.java:174-181 | definition: the value checks to make, one per registered cell of every touched store, with that cell's expectation |
| CallTrace.ReleaseCalls | titan-core/src/main/java/com/thinkaurelius/titan/diskstorage/locking/consistentkey/ExpectedValueCheckingTransaction.java:278-282 | definition: the releases to make, one `deleteLocks` per touched store |
| CallTrace.CommitPlan | titan-core/src/main/java/com/thinkaurelius/titan/diskstorage/locking/consistentkey/ExpectedValueCheckingTransaction.java:77-82 | definition: commit calls the weak commit, then the releases, then the strong commit |
| CallTrace.RollbackPlan | titan-core/src/main/java/com/thinkaurelius/titan/diskstorage/locking/consistentkey/ExpectedValueCheckingTransaction.java:70-75 | definition: rollback calls the releases, then the weak rollback, then the strong rollback |
| CallTrace.Executed | titan-core/src/main/java/com/thinkaurelius/titan/diskstorage/locking/consistentkey/ExpectedValueCheckingTransaction.java:140-147 | the calls made are a prefix of the calls planned |
| CallTrace.RunSucceeds | titan-core/src/main/java/com/thinkaurelius/titan/diskstorage/locking/consistentkey/ExpectedValueCheckingTransaction.java:140-147 | a run succeeds if and only if every planned call succeeds, and then every call is made |
| CallTrace.RunStopsAtFirstFailure | titan-core/src/main/java/com/thinkaurelius/titan/diskstorage/locking/consistentkey/ExpectedValueCheckingTransaction.java:140-147 | a failing run ends at the call that raised; every earlier call succeeded; its error is the run's |
| CallTrace.RunAppend | titan-core/src/main/java/com/thinkaurelius/titan/diskstorage/locking/consistentkey/ExpectedValueCheckingTransaction.java:141-144 | running one list after another runs the second only when the first succeeds |
| CallTrace.RunExtendFail | titan-core/src/main/java/com/thinkaurelius/titan/diskstorage/locking/consistentkey/ExpectedValueCheckingTransaction.java:156-165 | after calls that all succeeded, a raising call ends the run with its error, and nothing after it is made |
| CallTrace.CommitRun | titan-core/src/main/java/com/thinkaurelius/titan/diskstorage/locking/consistentkey/ExpectedValueCheckingTransaction.java:77-82 | commit's calls and outcome in each case: a failing weak commit; a failing release; or everything made, ending with the strong commit's result |
| CallTrace.RollbackRun | titan-core/src/main/java/com/thinkaurelius/titan/diskstorage/locking/consistentkey/ExpectedValueCheckingTransaction.java:70-75 | rollback's calls and outcome in each case: a failing release; a failing weak rollback; or everything made, ending with the strong rollback's result |
| CallTrace.LockChecksCoverLockerStores | titan-core/src/main/java/com/thinkaurelius/titan/diskstorage/locking/consistentkey/ExpectedValueCheckingTransaction.java:156-165 | the lock checks are made for exactly the touched stores that have a Locker; stores without one are skipped |
| CallTrace.LockChecksSucceed | titan-core/src/main/java/com/thinkaurelius/titan/diskstorage/locking/consistentkey/ExpectedValueCheckingTransaction.java:156-165 | the lock checks pass if and only if every touched store with a Locker confirms its locks |
| CallTrace.ValueChecksSucceed | titan-core/src/main/java/com/thinkaurelius/titan/diskstorage/locking/consistentkey/ExpectedValueCheckingTransaction.java:174-181 | the value checks pass if and only if every registered cell passes its check |
| CallTrace.ReleasesSucceed | titan-core/src/main/java/com/thinkaurelius/titan/diskstorage/locking/consistentkey/ExpectedValueCheckingTransaction.java:278-282 | the releases pass if and only if every touched store's release passes |
| CallTrace.PrepareOrdering | titan-core/src/main/java/com/thinkaurelius/titan/diskstorage/locking/consistentkey/ExpectedValueCheckingTransaction.java:140-147 | in the gate's trace, value checks occur exactly after the lock checks; a value check is made only after every lock check was made and passed |
| CallTrace.PrepareSucceeds | titan-core/src/main/java/com/thinkaurelius/titan/diskstorage/locking/consistentkey/ExpectedValueCheckingTransaction.java:140-147 | the gate's checks pass if and only if every lock check and every value check passes |
| CallTrace.CommitOrdering | titan-core/src/main/java/com/thinkaurelius/titan/diskstorage/locking/consistentkey/ExpectedValueCheckingTransaction.java:77-82 | the weak commit comes first and a failure there stops everything; the strong commit is made if and only if the weak commit and every release passed, and then the calls were exactly weak commit, each release once, strong commit |
| CallTrace.RollbackOrdering | titan-core/src/main/java/com/thinkaurelius/titan/diskstorage/locking/consistentkey/ExpectedValueCheckingTransaction.java:70-75 | the wrapped rollbacks are made only after every touched store's release was made and passed; the strong rollback is made if and only if those passed and the weak rollback did; on success the calls are exactly the plan |
| ExpectedValueCheckingTransactions.ExpectedValueCheckingTransaction.CheckAllLocks | titan-core/src/main/java/com/thinkaurelius/titan/diskstorage/locking/consistentkey/ExpectedValueCheckingTransaction.java:156-165 | its plan lists each lock check of a Locker store once; the trace grows by the executed prefix of the plan; the result is the plan's first failure |
| ExpectedValueCheckingTransactions.ExpectedValueCheckingTransaction.CheckSingleExpectedValue | titan-core/src/main/java/com/thinkaurelius/titan/diskstorage/locking/consistentkey/ExpectedValueCheckingTransaction.java:207-276 | records one verification call; the result is a read failure or the slice comparison of `ExpectedValueCheck` on the range from the column to the successor buffer |
| ExpectedValueCheckingTransactions.ExpectedValueCheckingTransaction.CheckAllExpectedValues | titan-core/src/main/java/com/thinkaurelius/titan/diskstorage/locking/consistentkey/ExpectedValueCheckingTransaction.java:174-181 | its plan lists each registered cell's check once; the trace grows by the executed prefix; the result is the plan's first failure |
| ExpectedValueCheckingTransactions.ExpectedValueCheckingTransaction.PrepareForMutations | titan-core/src/main/java/com/thinkaurelius/titan/diskstorage/locking/consistentkey/ExpectedValueCheckingTransaction.java:140-147 | once started, makes no call and stays started; otherwise runs all lock checks, then all value checks, and sets the flag exactly when they all pass; answers whether any store was touched, or else the first error |
| ExpectedValueCheckingTransactions.ExpectedValueCheckingTransaction.DeleteAllLocks | titan-core/src/main/java/com/thinkaurelius/titan/diskstorage/locking/consistentkey/ExpectedValueCheckingTransaction.java:278-282 | its plan lists each touched store's release once; the trace grows by the executed prefix; the result is the plan's first failure |
| ExpectedValueCheckingTransactions.ExpectedValueCheckingTransaction.Commit | titan-core/src/main/java/com/thinkaurelius/titan/diskstorage/locking/consistentkey/ExpectedValueCheckingTransaction.java:77-82 | the trace grows by the executed prefix of weak commit, every release once, strong commit; the result is that run's first failure |
| ExpectedValueCheckingTransactions.ExpectedValueCheckingTransaction.Rollback | titan-core/src/main/java/com/thinkaurelius/titan/diskstorage/locking/consistentkey/ExpectedValueCheckingTransaction.java:70-75 | the trace grows by the executed prefix of every release once, weak rollback, strong rollback; the result is that run's first failure |

## Left out

- Logging (the debug messages in `storeExpectedValue` and the filter) has no
  effect on state, so it is not modelled.
- The null checks of `storeExpectedValue` are not modelled. Store handles and
  cell addresses are values, so they cannot be null.
- `getConfiguration`, `getInconsistentTx` and `getConsistentTx` are plain
  accessors of the wrapped transactions and are not modelled. The use of
  `getConsistentTx` inside `checkAllLocks` is folded into the `checkLocks`
  oracle, which stands for the Locker's check on the strong transaction.
- `maxReadTime` and the retries of `BackendOperation.executeDirect` are folded
  into the slice-read oracle. It answers with the entries, or with the error
  the bounded executor finally raises.
- `BufferUtil.nextBiggerBuffer` is not part of this model. It is an oracle.
  Its promise, a bound strictly greater than the column, is a hypothesis of
  `ExpectedValueCheck.FaithfulSliceDecides` only. The model does not assume
  it is the smallest such bound, and the check does not depend on that.
- The Java `assert` statements inside the value projection are not modelled.
  They are about the column lying inside the slice bounds, and they are
  disabled in production.
- Stores are identified by a number, not by object identity. HashMap iteration
  order is any order: each loop picks an arbitrary remaining key.
- The collaborators are deterministic functions, fixed when the transaction
  is built. No single method invocation makes the same collaborator call
  twice. Across invocations, though, a call can repeat, and the model then
  forces the earlier answer:
  - a gate whose checks failed leaves the flag down, so the next gate re-runs
    the same lock checks and value checks and gets the same outcomes;
  - a cleanup rollback after a failed commit calls `deleteLocks` again for
    every touched store, and gets the answer the commit got.

  In the source, a repeated call can answer differently (a lock released in
  between, a value changed). The model does not capture that.
- Concurrency is not modelled. The class is single-threaded by contract.
- ExpectedValueCheckingTransactions.ExpectedValueCheckingTransaction.CheckAllExpectedValues:
  the contract does not state that one store's cells are checked
  contiguously. It states only that each registered cell is checked once, in
  some order.
- ExpectedValueCheckingTransactions.ExpectedValueCheckingTransaction.StoreExpectedValue:
  does not require the locking stage. The Java method does not check the
  flag; its caller, the store's `acquireLock`, refuses locks after the
  mutation stage begins.
- ExpectedValueCheckingTransactions.ExpectedValueCheckingTransaction.Commit:
  being called at most once per transaction is not enforced. The Java
  method does not enforce it either.
