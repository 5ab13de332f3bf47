/**
  The collaborators of ExpectedValueCheckingTransaction and the calls it makes
  into them. Every collaborator is an oracle that may fail; the transaction
  records each call in a ghost trace. A run of a list of calls stops at the
  first call that raises, and that error is the run's outcome.
*/
module CallTrace {
  import opened LockingTypes
  import opened ExpectationTable
  import ExpectedValueCheck

  /** A call into a collaborator, as recorded in the transaction's trace. */
  datatype Call =
    | CheckLocks(store: StoreId)
    | CheckExpectedValue(store: StoreId, kc: KeyColumn, ev: Option<Bytes>)
    | DeleteLocks(store: StoreId)
    | CommitInconsistent
    | CommitStrong
    | RollbackInconsistent
    | RollbackStrong

  /** The answer of the bounded slice read: the entries (None when the store
      returned null), or the error it failed with. */
  datatype Read = Slice(entries: Option<seq<Entry>>) | ReadFailed(error: BackendError)

  /** The collaborators the transaction cannot see into.
      - hasLocker(s): the store has a Locker (getLocker() is not null);
      - checkLocks(s): that Locker's checkLocks on the strong transaction;
      - nextBiggerBuffer: the exclusive upper bound of the verification slice;
      - readSlice(s, q): the slice read of the backing store on the strong
        transaction, run by the bounded executor;
      - deleteLocks(s): the store's lock release for this transaction;
      - the commits and rollbacks of the two wrapped transactions. */
  datatype Collaborators = Collaborators(
    hasLocker: StoreId -> bool,
    checkLocks: StoreId -> Status,
    nextBiggerBuffer: Bytes -> Bytes,
    readSlice: (StoreId, KeySliceQuery) -> Read,
    deleteLocks: StoreId -> Status,
    commitInconsistent: Status,
    commitStrong: Status,
    rollbackInconsistent: Status,
    rollbackStrong: Status)

  /** The query that targets exactly the column of `kc`: from the column
      (inclusive) to the next bigger buffer (exclusive). */
  function SliceQuery(kc: KeyColumn, env: Collaborators): KeySliceQuery {
    KeySliceQuery(kc.key, kc.column, env.nextBiggerBuffer(kc.column))
  }

  /** How one call ends. */
  function Outcome(c: Call, env: Collaborators): Status {
    match c
    case CheckLocks(s) => env.checkLocks(s)
    case CheckExpectedValue(s, kc, ev) =>
      (match env.readSlice(s, SliceQuery(kc, env))
       case ReadFailed(e) => Raised(e)
       case Slice(es) => ExpectedValueCheck.CheckSlice(kc, ev, s, es))
    case DeleteLocks(s) => env.deleteLocks(s)
    case CommitInconsistent => env.commitInconsistent
    case CommitStrong => env.commitStrong
    case RollbackInconsistent => env.rollbackInconsistent
    case RollbackStrong => env.rollbackStrong
  }

  /** The calls of `plan` that are actually made: all of them up to and
      including the first that raises. */
  function Executed(plan: seq<Call>, env: Collaborators): (done: seq<Call>)
    ensures |done| <= |plan| && done == plan[..|done|]
  {
    if plan == [] then []
    else if Outcome(plan[0], env).Raised? then [plan[0]]
    else [plan[0]] + Executed(plan[1..], env)
  }

  /** The outcome of running `plan`: the error of its first raising call, or Ok. */
  function FirstFailure(plan: seq<Call>, env: Collaborators): Status {
    if plan == [] then Ok
    else if Outcome(plan[0], env).Raised? then Outcome(plan[0], env)
    else FirstFailure(plan[1..], env)
  }

  /** A run succeeds exactly when every call succeeds, and then every call is made. */
  lemma {:induction false} RunSucceeds(plan: seq<Call>, env: Collaborators)
    ensures FirstFailure(plan, env).Ok? <==> forall i :: 0 <= i < |plan| ==> Outcome(plan[i], env).Ok?
    ensures FirstFailure(plan, env).Ok? ==> Executed(plan, env) == plan
  {
    if plan != [] {
      RunSucceeds(plan[1..], env);
      assert forall i :: 0 < i < |plan| ==> plan[i] == plan[1..][i - 1];
    }
  }

  /** A failing run stops at its first raising call: every call made before it
      succeeded, and no later call is made. */
  lemma {:induction false} RunStopsAtFirstFailure(plan: seq<Call>, env: Collaborators)
    requires FirstFailure(plan, env).Raised?
    ensures var done := Executed(plan, env);
      && |done| >= 1
      && Outcome(plan[|done| - 1], env) == FirstFailure(plan, env)
      && forall j :: 0 <= j < |done| - 1 ==> Outcome(plan[j], env).Ok?
  {
    if Outcome(plan[0], env).Ok? {
      RunStopsAtFirstFailure(plan[1..], env);
    }
  }

  /** Running `a + b` runs `a` and, only when `a` succeeds, then `b`. */
  lemma {:induction false} RunAppend(a: seq<Call>, b: seq<Call>, env: Collaborators)
    ensures Executed(a + b, env) == if FirstFailure(a, env).Ok? then a + Executed(b, env) else Executed(a, env)
    ensures FirstFailure(a + b, env) == if FirstFailure(a, env).Ok? then FirstFailure(b, env) else FirstFailure(a, env)
  {
    if a == [] {
      assert a + b == b;
    } else {
      assert (a + b)[0] == a[0];
      assert (a + b)[1..] == a[1..] + b;
      RunAppend(a[1..], b, env);
    }
  }

  /** A single call is made, and its outcome is the run's. */
  lemma RunSingle(c: Call, env: Collaborators)
    ensures Executed([c], env) == [c] && FirstFailure([c], env) == Outcome(c, env)
  {
    assert [c][1..] == [];
  }

  /** Every call of `plan` succeeds. */
  ghost predicate AllOk(plan: seq<Call>, env: Collaborators) {
    forall i :: 0 <= i < |plan| ==> Outcome(plan[i], env).Ok?
  }

  /** A run of calls that all succeed, extended by one more that succeeds. */
  lemma RunExtendOk(plan: seq<Call>, c: Call, env: Collaborators)
    requires AllOk(plan, env) && Outcome(c, env).Ok?
    ensures AllOk(plan + [c], env)
  {
    assert forall i :: 0 <= i < |plan| ==> (plan + [c])[i] == plan[i];
  }

  /** A run of calls that all succeed, extended by a call that raises:
      nothing after that call is made, and its error is the outcome. */
  lemma RunExtendFail(plan: seq<Call>, c: Call, rest: seq<Call>, env: Collaborators)
    requires AllOk(plan, env) && Outcome(c, env).Raised?
    ensures Executed(plan + [c] + rest, env) == plan + [c]
    ensures FirstFailure(plan + [c] + rest, env) == Outcome(c, env)
  {
    assert plan + [c] + rest == plan + ([c] + rest);
    RunSucceeds(plan, env);
    RunAppend(plan, [c] + rest, env);
    RunAppend([c], rest, env);
    RunSingle(c, env);
  }

  /** The run of `commit`: a failing weak commit stops everything; a failing
      release stops the releases after it and the strong commit. */
  lemma CommitRun(releases: seq<Call>, env: Collaborators)
    ensures Executed(CommitPlan(releases), env) ==
      if env.commitInconsistent.Raised? then [CommitInconsistent]
      else if FirstFailure(releases, env).Raised? then [CommitInconsistent] + Executed(releases, env)
      else [CommitInconsistent] + releases + [CommitStrong]
    ensures FirstFailure(CommitPlan(releases), env) ==
      if env.commitInconsistent.Raised? then env.commitInconsistent
      else if FirstFailure(releases, env).Raised? then FirstFailure(releases, env)
      else env.commitStrong
  {
    assert CommitPlan(releases) == [CommitInconsistent] + (releases + [CommitStrong]);
    RunSingle(CommitInconsistent, env);
    RunSingle(CommitStrong, env);
    RunAppend([CommitInconsistent], releases + [CommitStrong], env);
    RunAppend(releases, [CommitStrong], env);
    RunSucceeds(releases, env);
  }

  /** The run of `rollback`: a failing release stops the releases after it and
      both rollbacks; a failing weak rollback stops the strong one. */
  lemma RollbackRun(releases: seq<Call>, env: Collaborators)
    ensures Executed(RollbackPlan(releases), env) ==
      if FirstFailure(releases, env).Raised? then Executed(releases, env)
      else if env.rollbackInconsistent.Raised? then releases + [RollbackInconsistent]
      else releases + [RollbackInconsistent, RollbackStrong]
    ensures FirstFailure(RollbackPlan(releases), env) ==
      if FirstFailure(releases, env).Raised? then FirstFailure(releases, env)
      else if env.rollbackInconsistent.Raised? then env.rollbackInconsistent
      else env.rollbackStrong
  {
    var tail := [RollbackInconsistent, RollbackStrong];
    assert tail == [RollbackInconsistent] + [RollbackStrong];
    RunSingle(RollbackInconsistent, env);
    RunSingle(RollbackStrong, env);
    RunAppend([RollbackInconsistent], [RollbackStrong], env);
    RunAppend(releases, tail, env);
    RunSucceeds(releases, env);
  }

  /** `xs` lists every element of `s` exactly once, and nothing else. */
  ghost predicate EachOnce<T(!new)>(xs: seq<T>, s: set<T>) {
    && (forall i, j :: 0 <= i < j < |xs| ==> xs[i] != xs[j])
    && (forall x :: x in xs <==> x in s)
  }

  /** Some order of the elements of `s`. */
  ghost function Enumerate<T(!new)>(s: set<T>): (xs: seq<T>)
    ensures EachOnce(xs, s)
    decreases s
  {
    if s == {} then []
    else
      var x :| x in s;
      [x] + Enumerate(s - {x})
  }

  /** Listing two disjoint sets one after the other lists their union. */
  lemma EachOnceAppend<T(!new)>(xs: seq<T>, a: set<T>, ys: seq<T>, b: set<T>)
    requires EachOnce(xs, a) && EachOnce(ys, b) && a !! b
    ensures EachOnce(xs + ys, a + b)
  {
    forall i, j | 0 <= i < j < |xs + ys| ensures (xs + ys)[i] != (xs + ys)[j] {
      if j < |xs| {
      } else if i >= |xs| {
        assert (xs + ys)[i] == ys[i - |xs|] && (xs + ys)[j] == ys[j - |xs|];
      } else {
        assert (xs + ys)[i] in a && (xs + ys)[j] == ys[j - |xs|];
      }
    }
  }

  /** Completes a prefix `done` of some listing of `s` with the call `x` and
      the rest of `s` in some order. */
  lemma EachOnceCompleted<T(!new)>(done: seq<T>, a: set<T>, x: T, s: set<T>)
    requires EachOnce(done, a) && a <= s && x in s && x !in a
    ensures EachOnce(done + [x] + Enumerate(s - a - {x}), s)
  {
    EachOnceAppend(done, a, [x], {x});
    EachOnceAppend(done + [x], a + {x}, Enumerate(s - a - {x}), s - a - {x});
    assert a + {x} + (s - a - {x}) == s;
  }

  /** The lock checks the gate must make: one per touched store of `stores`
      that has a Locker. */
  function LockCheckCalls(t: Table, stores: set<StoreId>, env: Collaborators): set<Call> {
    set s | s in stores && s in t && env.hasLocker(s) :: CheckLocks(s)
  }

  /** The expected-value checks the gate must make: one per registered cell
      of the stores in `stores`. */
  function ValueCheckCalls(t: Table, stores: set<StoreId>): set<Call> {
    set s, kc | s in stores && s in t && kc in t[s] :: CheckExpectedValue(s, kc, t[s][kc])
  }

  /** The expected-value checks for the cells `kcs` of one store's bucket. */
  function BucketCheckCalls(store: StoreId, bucket: map<KeyColumn, Option<Bytes>>, kcs: set<KeyColumn>): set<Call> {
    set kc | kc in kcs && kc in bucket :: CheckExpectedValue(store, kc, bucket[kc])
  }

  /** The lock releases commit and rollback must make: one per touched store
      of `stores`. */
  function ReleaseCalls(t: Table, stores: set<StoreId>): set<Call> {
    set s | s in stores && s in t :: DeleteLocks(s)
  }

  /** One more store handled by the lock-check loop. */
  lemma LockCheckCallsStep(t: Table, done: set<StoreId>, store: StoreId, env: Collaborators)
    requires store !in done
    ensures CheckLocks(store) !in LockCheckCalls(t, done, env)
    ensures LockCheckCalls(t, done + {store}, env)
            == LockCheckCalls(t, done, env) + (if store in t && env.hasLocker(store) then {CheckLocks(store)} else {})
  {
  }

  /** One more cell handled by the expected-value loop. */
  lemma BucketCheckCallsStep(store: StoreId, bucket: map<KeyColumn, Option<Bytes>>, done: set<KeyColumn>, kc: KeyColumn)
    requires kc !in done && kc in bucket
    ensures CheckExpectedValue(store, kc, bucket[kc]) !in BucketCheckCalls(store, bucket, done)
    ensures BucketCheckCalls(store, bucket, done + {kc})
            == BucketCheckCalls(store, bucket, done) + {CheckExpectedValue(store, kc, bucket[kc])}
  {
  }

  /** The next cell of the expected-value loop is one of the checks still
      to make, and making it extends what is done by exactly that check. */
  lemma ValueCheckNext(t: Table, doneStores: set<StoreId>, store: StoreId, doneKcs: set<KeyColumn>, kc: KeyColumn)
    requires store in t && store !in doneStores && kc in t[store] && kc !in doneKcs
    ensures var doneSet := ValueCheckCalls(t, doneStores) + BucketCheckCalls(store, t[store], doneKcs);
      var c := CheckExpectedValue(store, kc, t[store][kc]);
      && c in ValueCheckCalls(t, t.Keys) && c !in doneSet && doneSet <= ValueCheckCalls(t, t.Keys)
      && doneSet + {c} == ValueCheckCalls(t, doneStores) + BucketCheckCalls(store, t[store], doneKcs + {kc})
  {
    var c := CheckExpectedValue(store, kc, t[store][kc]);
    BucketCheckCallsStep(store, t[store], doneKcs, kc);
    assert c in ValueCheckCalls(t, t.Keys);
    assert c !in ValueCheckCalls(t, doneStores);
  }

  /** One more store handled by the expected-value loop. */
  lemma ValueCheckCallsStep(t: Table, done: set<StoreId>, store: StoreId)
    requires store !in done && store in t
    ensures ValueCheckCalls(t, done) !! BucketCheckCalls(store, t[store], t[store].Keys)
    ensures ValueCheckCalls(t, done + {store}) == ValueCheckCalls(t, done) + BucketCheckCalls(store, t[store], t[store].Keys)
  {
  }

  /** One more store handled by the release loop. */
  lemma ReleaseCallsStep(t: Table, done: set<StoreId>, store: StoreId)
    requires store !in done && store in t
    ensures DeleteLocks(store) !in ReleaseCalls(t, done)
    ensures ReleaseCalls(t, done + {store}) == ReleaseCalls(t, done) + {DeleteLocks(store)}
  {
  }

  /** The calls of `commit`: weak commit, the releases, strong commit. */
  function CommitPlan(releases: seq<Call>): seq<Call> {
    [CommitInconsistent] + releases + [CommitStrong]
  }

  /** The calls of `rollback`: the releases, weak rollback, strong rollback. */
  function RollbackPlan(releases: seq<Call>): seq<Call> {
    releases + [RollbackInconsistent, RollbackStrong]
  }

  /** The gate checks the locks of exactly the touched stores that have a
      Locker, each once, and skips the others. */
  lemma LockChecksCoverLockerStores(t: Table, lockPlan: seq<Call>, env: Collaborators)
    requires EachOnce(lockPlan, LockCheckCalls(t, t.Keys, env))
    ensures forall s :: CheckLocks(s) in lockPlan <==> s in t && env.hasLocker(s)
    ensures forall i :: 0 <= i < |lockPlan| ==> lockPlan[i].CheckLocks?
  {
    forall i | 0 <= i < |lockPlan| ensures lockPlan[i].CheckLocks? {
      assert lockPlan[i] in LockCheckCalls(t, t.Keys, env);
    }
  }

  /** Every call of a listing of the expected-value checks is such a check. */
  lemma OnlyValueChecks(t: Table, valuePlan: seq<Call>)
    requires EachOnce(valuePlan, ValueCheckCalls(t, t.Keys))
    ensures forall i :: 0 <= i < |valuePlan| ==> valuePlan[i].CheckExpectedValue?
  {
    forall i | 0 <= i < |valuePlan| ensures valuePlan[i].CheckExpectedValue? {
      assert valuePlan[i] in ValueCheckCalls(t, t.Keys);
    }
  }

  /** Every call of a listing of the releases is a release. */
  lemma OnlyReleases(t: Table, releases: seq<Call>)
    requires EachOnce(releases, ReleaseCalls(t, t.Keys))
    ensures forall i :: 0 <= i < |releases| ==> releases[i].DeleteLocks?
  {
    forall i | 0 <= i < |releases| ensures releases[i].DeleteLocks? {
      assert releases[i] in ReleaseCalls(t, t.Keys);
    }
  }

  /** The lock checks all succeed exactly when every touched store with a
      Locker passes its check. */
  lemma LockChecksSucceed(t: Table, lockPlan: seq<Call>, env: Collaborators)
    requires EachOnce(lockPlan, LockCheckCalls(t, t.Keys, env))
    ensures FirstFailure(lockPlan, env).Ok? <==> forall s :: s in t && env.hasLocker(s) ==> env.checkLocks(s).Ok?
  {
    RunSucceeds(lockPlan, env);
    if FirstFailure(lockPlan, env).Ok? {
      forall s | s in t && env.hasLocker(s) ensures env.checkLocks(s).Ok? {
        assert CheckLocks(s) in LockCheckCalls(t, t.Keys, env);
        var i :| 0 <= i < |lockPlan| && lockPlan[i] == CheckLocks(s);
      }
    }
    if forall s :: s in t && env.hasLocker(s) ==> env.checkLocks(s).Ok? {
      forall i | 0 <= i < |lockPlan| ensures Outcome(lockPlan[i], env).Ok? {
        assert lockPlan[i] in LockCheckCalls(t, t.Keys, env);
      }
    }
  }

  /** The expected-value checks all succeed exactly when every registered
      cell passes its check. */
  lemma ValueChecksSucceed(t: Table, valuePlan: seq<Call>, env: Collaborators)
    requires EachOnce(valuePlan, ValueCheckCalls(t, t.Keys))
    ensures FirstFailure(valuePlan, env).Ok? <==> forall c :: c in ValueCheckCalls(t, t.Keys) ==> Outcome(c, env).Ok?
  {
    RunSucceeds(valuePlan, env);
    if FirstFailure(valuePlan, env).Ok? {
      forall c | c in ValueCheckCalls(t, t.Keys) ensures Outcome(c, env).Ok? {
        var i :| 0 <= i < |valuePlan| && valuePlan[i] == c;
      }
    }
  }

  /** The releases all succeed exactly when every touched store's release does. */
  lemma ReleasesSucceed(t: Table, releases: seq<Call>, env: Collaborators)
    requires EachOnce(releases, ReleaseCalls(t, t.Keys))
    ensures FirstFailure(releases, env).Ok? <==> forall s :: s in t ==> env.deleteLocks(s).Ok?
  {
    RunSucceeds(releases, env);
    if FirstFailure(releases, env).Ok? {
      forall s | s in t ensures env.deleteLocks(s).Ok? {
        assert DeleteLocks(s) in ReleaseCalls(t, t.Keys);
        var i :| 0 <= i < |releases| && releases[i] == DeleteLocks(s);
      }
    }
    if forall s :: s in t ==> env.deleteLocks(s).Ok? {
      forall i | 0 <= i < |releases| ensures Outcome(releases[i], env).Ok? {
        assert releases[i] in ReleaseCalls(t, t.Keys);
      }
    }
  }

  /** Ordering of the gate: the expected values are read only after every
      lock check was made and succeeded. */
  lemma PrepareOrdering(t: Table, lockPlan: seq<Call>, valuePlan: seq<Call>, env: Collaborators)
    requires EachOnce(lockPlan, LockCheckCalls(t, t.Keys, env))
    requires EachOnce(valuePlan, ValueCheckCalls(t, t.Keys))
    ensures var done := Executed(lockPlan + valuePlan, env);
      && (forall i :: 0 <= i < |done| ==> (done[i].CheckExpectedValue? <==> i >= |lockPlan|))
      && (|done| > |lockPlan| ==> done[..|lockPlan|] == lockPlan
                                  && forall s :: s in t && env.hasLocker(s) ==> env.checkLocks(s).Ok?)
  {
    var done := Executed(lockPlan + valuePlan, env);
    LockChecksCoverLockerStores(t, lockPlan, env);
    OnlyValueChecks(t, valuePlan);
    forall i | 0 <= i < |done| ensures done[i].CheckExpectedValue? <==> i >= |lockPlan| {
      assert done[i] == (lockPlan + valuePlan)[i];
      if i >= |lockPlan| {
        assert done[i] == valuePlan[i - |lockPlan|];
      }
    }
    if |done| > |lockPlan| {
      RunAppend(lockPlan, valuePlan, env);
      LockChecksSucceed(t, lockPlan, env);
      assert done[..|lockPlan|] == (lockPlan + valuePlan)[..|lockPlan|] == lockPlan;
    }
  }

  /** The gate passes exactly when every lock check and every expected-value
      check passes. */
  lemma PrepareSucceeds(t: Table, lockPlan: seq<Call>, valuePlan: seq<Call>, env: Collaborators)
    requires EachOnce(lockPlan, LockCheckCalls(t, t.Keys, env))
    requires EachOnce(valuePlan, ValueCheckCalls(t, t.Keys))
    ensures FirstFailure(lockPlan + valuePlan, env).Ok? <==>
      && (forall s :: s in t && env.hasLocker(s) ==> env.checkLocks(s).Ok?)
      && (forall c :: c in ValueCheckCalls(t, t.Keys) ==> Outcome(c, env).Ok?)
  {
    RunAppend(lockPlan, valuePlan, env);
    LockChecksSucceed(t, lockPlan, env);
    ValueChecksSucceed(t, valuePlan, env);
  }

  /** Ordering of `commit`: the weak commit comes first; the strong commit is
      made exactly when the weak commit and every touched store's release
      succeeded, and then the calls were exactly weak commit, each touched
      store's release once, strong commit. A failing weak commit stops
      everything after it. */
  lemma CommitOrdering(t: Table, releases: seq<Call>, env: Collaborators)
    requires EachOnce(releases, ReleaseCalls(t, t.Keys))
    ensures var done := Executed(CommitPlan(releases), env);
      && |done| >= 1 && done[0] == CommitInconsistent
      && (env.commitInconsistent.Raised? ==> done == [CommitInconsistent])
      && (CommitStrong in done <==> env.commitInconsistent.Ok? && forall s :: s in t ==> env.deleteLocks(s).Ok?)
      && (CommitStrong in done ==> done == CommitPlan(releases))
  {
    var plan := CommitPlan(releases);
    var done := Executed(plan, env);
    assert plan == [CommitInconsistent] + (releases + [CommitStrong]);
    RunAppend([CommitInconsistent], releases + [CommitStrong], env);
    RunAppend(releases, [CommitStrong], env);
    ReleasesSucceed(t, releases, env);
    OnlyReleases(t, releases);
    if env.commitInconsistent.Ok? {
      if FirstFailure(releases, env).Ok? {
        RunSucceeds(releases, env);
        assert done == plan;
      } else {
        var partial := Executed(releases, env);
        assert done == [CommitInconsistent] + partial;
        assert forall i :: 0 <= i < |partial| ==> partial[i] == releases[i];
      }
    }
  }

  /** Ordering of `rollback`: the wrapped transactions are rolled back only
      after every touched store's release was made and succeeded, each once;
      the strong rollback is made exactly when the releases and the weak
      rollback succeeded. */
  lemma RollbackOrdering(t: Table, releases: seq<Call>, env: Collaborators)
    requires EachOnce(releases, ReleaseCalls(t, t.Keys))
    ensures var done := Executed(RollbackPlan(releases), env);
      && ((RollbackInconsistent in done || RollbackStrong in done) ==>
            |releases| < |done| && done[..|releases|] == releases && forall s :: s in t ==> env.deleteLocks(s).Ok?)
      && (RollbackStrong in done <==>
            env.rollbackInconsistent.Ok? && forall s :: s in t ==> env.deleteLocks(s).Ok?)
      && (FirstFailure(RollbackPlan(releases), env).Ok? ==> done == RollbackPlan(releases))
  {
    var plan := RollbackPlan(releases);
    var done := Executed(plan, env);
    RollbackRun(releases, env);
    ReleasesSucceed(t, releases, env);
    OnlyReleases(t, releases);
    if FirstFailure(releases, env).Raised? {
      var partial := Executed(releases, env);
      assert forall i :: 0 <= i < |partial| ==> partial[i] == releases[i];
    } else {
      RunSucceeds(releases, env);
      if env.rollbackInconsistent.Raised? {
        assert done == releases + [RollbackInconsistent];
        assert forall i :: 0 <= i < |releases| ==> done[i] == releases[i];
      } else {
        assert done == releases + [RollbackInconsistent, RollbackStrong];
        assert done[|releases| + 1] == RollbackStrong;
      }
      assert done[..|releases|] == releases;
    }
  }
}
