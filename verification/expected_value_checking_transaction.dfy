/**
  ExpectedValueCheckingTransaction: a store transaction that wraps a weakly
  consistent transaction for data and a strongly consistent one for lock
  records and verification reads. While it is locking it collects expected
  values; its gate checks the locks and re-reads every expected value before
  the first mutation, and commit and rollback release the locks of every
  touched store. Single-threaded by contract.
*/
module ExpectedValueCheckingTransactions {
  import opened LockingTypes
  import opened ExpectationTable
  import opened CallTrace
  import ExpectedValueCheck

  class ExpectedValueCheckingTransaction {
    /** False during the locking stage; set by the gate before the first
        mutation, and never reset. */
    var isMutationStarted: bool

    /** The expected value (None: expected absent) of every locked cell, per
        touched store. */
    var expectedValuesByStore: Table

    /** The stores' lockers and backing stores, the successor-buffer utility
        and the two wrapped transactions. */
    const env: Collaborators

    /** Every call made into a collaborator, in order. */
    ghost var calls: seq<Call>

    constructor (env: Collaborators)
      ensures this.env == env
      ensures !isMutationStarted && expectedValuesByStore == map[] && calls == []
    {
      this.env := env;
      isMutationStarted := false;
      expectedValuesByStore := map[];
      calls := [];
    }

    /** Whether the gate has passed; once true, the stores refuse new locks. */
    method IsMutationStarted() returns (started: bool)
      ensures started == isMutationStarted
    {
      started := isMutationStarted;
    }

    /** Marks the start of the mutation stage. */
    method MutationStarted()
      modifies this`isMutationStarted
      ensures isMutationStarted
    {
      isMutationStarted := true;
    }

    /** Makes sure `store` has a bucket in the table. */
    method LockedOn(store: StoreId)
      modifies this`expectedValuesByStore
      ensures expectedValuesByStore == WithBucket(old(expectedValuesByStore), store)
    {
      if store !in expectedValuesByStore {
        expectedValuesByStore := expectedValuesByStore[store := map[]];
      }
    }

    /** Registers the value `kc` is expected to hold in `store` (None:
        expected absent); the first registration for a cell wins. */
    method StoreExpectedValue(store: StoreId, kc: KeyColumn, value: Option<Bytes>)
      modifies this`expectedValuesByStore
      ensures expectedValuesByStore == WithExpectation(old(expectedValuesByStore), store, kc, value)
      ensures old(expectedValuesByStore).Keys <= expectedValuesByStore.Keys
    {
      LockedOn(store);
      var m := expectedValuesByStore[store];
      if kc !in m {
        expectedValuesByStore := expectedValuesByStore[store := m[kc := value]];
      }
    }

    /** Asks the Locker of every touched store that has one to confirm its
        locks, stopping at the first that fails. */
    method CheckAllLocks() returns (r: Status, ghost lockPlan: seq<Call>)
      modifies this`calls
      ensures EachOnce(lockPlan, LockCheckCalls(expectedValuesByStore, expectedValuesByStore.Keys, env))
      ensures calls == old(calls) + Executed(lockPlan, env)
      ensures r == FirstFailure(lockPlan, env)
    {
      ghost var t := expectedValuesByStore;
      ghost var all := LockCheckCalls(t, t.Keys, env);
      var remaining := expectedValuesByStore.Keys;
      lockPlan := [];
      while remaining != {}
        invariant remaining <= t.Keys
        invariant EachOnce(lockPlan, LockCheckCalls(t, t.Keys - remaining, env))
        invariant calls == old(calls) + lockPlan
        invariant AllOk(lockPlan, env)
        decreases remaining
      {
        var store :| store in remaining;
        ghost var doneSet := LockCheckCalls(t, t.Keys - remaining, env);
        if env.hasLocker(store) {
          ghost var c := CheckLocks(store);
          var st := env.checkLocks(store);
          calls := calls + [c];
          assert calls == old(calls) + (lockPlan + [c]);
          if st.Raised? {
            r := st;
            ghost var completed := lockPlan + [c] + Enumerate(all - doneSet - {c});
            assert EachOnce(completed, all) && Executed(completed, env) == lockPlan + [c] && FirstFailure(completed, env) == st by {
              LockCheckCallsStep(t, t.Keys - remaining, store, env);
              EachOnceCompleted(lockPlan, doneSet, c, all);
              RunExtendFail(lockPlan, c, Enumerate(all - doneSet - {c}), env);
            }
            lockPlan := completed;
            return;
          }
          assert EachOnce(lockPlan + [c], LockCheckCalls(t, t.Keys - (remaining - {store}), env))
                 && AllOk(lockPlan + [c], env) by {
            assert t.Keys - (remaining - {store}) == (t.Keys - remaining) + {store};
            LockCheckCallsStep(t, t.Keys - remaining, store, env);
            EachOnceAppend(lockPlan, doneSet, [c], {c});
            RunExtendOk(lockPlan, c, env);
          }
          lockPlan := lockPlan + [c];
        } else {
          assert LockCheckCalls(t, t.Keys - (remaining - {store}), env) == doneSet by {
            assert t.Keys - (remaining - {store}) == (t.Keys - remaining) + {store};
            LockCheckCallsStep(t, t.Keys - remaining, store, env);
          }
        }
        remaining := remaining - {store};
      }
      assert t.Keys - remaining == t.Keys;
      RunSucceeds(lockPlan, env);
      r := Ok;
    }

    /** Re-reads one cell on the strong transaction, within the bounded read
        time, and compares what it finds with the expectation `ev`. */
    method CheckSingleExpectedValue(kc: KeyColumn, ev: Option<Bytes>, store: StoreId) returns (r: Status)
      modifies this`calls
      ensures calls == old(calls) + [CheckExpectedValue(store, kc, ev)]
      ensures r == Outcome(CheckExpectedValue(store, kc, ev), env)
    {
      calls := calls + [CheckExpectedValue(store, kc, ev)];
      var read := env.readSlice(store, SliceQuery(kc, env));
      match read
      case ReadFailed(e) =>
        r := Raised(e);
      case Slice(entries) =>
        r := ExpectedValueCheck.CheckSlice(kc, ev, store, entries);
    }

    /** Verifies every registered expectation, store by store and cell by
        cell, stopping at the first that fails. */
    method CheckAllExpectedValues() returns (r: Status, ghost valuePlan: seq<Call>)
      modifies this`calls
      ensures EachOnce(valuePlan, ValueCheckCalls(expectedValuesByStore, expectedValuesByStore.Keys))
      ensures calls == old(calls) + Executed(valuePlan, env)
      ensures r == FirstFailure(valuePlan, env)
    {
      ghost var t := expectedValuesByStore;
      ghost var all := ValueCheckCalls(t, t.Keys);
      var stores := expectedValuesByStore.Keys;
      valuePlan := [];
      while stores != {}
        invariant stores <= t.Keys
        invariant EachOnce(valuePlan, ValueCheckCalls(t, t.Keys - stores))
        invariant calls == old(calls) + valuePlan
        invariant AllOk(valuePlan, env)
        decreases stores
      {
        var store :| store in stores;
        var m := expectedValuesByStore[store];
        ghost var before := ValueCheckCalls(t, t.Keys - stores);
        ghost var after := ValueCheckCalls(t, t.Keys - (stores - {store}));
        assert after == before + BucketCheckCalls(store, m, m.Keys) by {
          assert t.Keys - (stores - {store}) == (t.Keys - stores) + {store};
          ValueCheckCallsStep(t, t.Keys - stores, store);
        }
        var kcs := m.Keys;
        while kcs != {}
          invariant kcs <= m.Keys
          invariant EachOnce(valuePlan, before + BucketCheckCalls(store, m, m.Keys - kcs))
          invariant calls == old(calls) + valuePlan
          invariant AllOk(valuePlan, env)
          decreases kcs
        {
          var kc :| kc in kcs;
          ghost var doneSet := before + BucketCheckCalls(store, m, m.Keys - kcs);
          ghost var c := CheckExpectedValue(store, kc, m[kc]);
          assert c in all && c !in doneSet && doneSet <= all by {
            ValueCheckNext(t, t.Keys - stores, store, m.Keys - kcs, kc);
          }
          var st := CheckSingleExpectedValue(kc, m[kc], store);
          assert calls == old(calls) + (valuePlan + [c]);
          if st.Raised? {
            r := st;
            ghost var completed := valuePlan + [c] + Enumerate(all - doneSet - {c});
            assert EachOnce(completed, all) && Executed(completed, env) == valuePlan + [c] && FirstFailure(completed, env) == st by {
              EachOnceCompleted(valuePlan, doneSet, c, all);
              RunExtendFail(valuePlan, c, Enumerate(all - doneSet - {c}), env);
            }
            valuePlan := completed;
            return;
          }
          assert EachOnce(valuePlan + [c], before + BucketCheckCalls(store, m, m.Keys - (kcs - {kc})))
                 && AllOk(valuePlan + [c], env) by {
            assert m.Keys - (kcs - {kc}) == (m.Keys - kcs) + {kc};
            ValueCheckNext(t, t.Keys - stores, store, m.Keys - kcs, kc);
            EachOnceAppend(valuePlan, doneSet, [c], {c});
            RunExtendOk(valuePlan, c, env);
          }
          valuePlan := valuePlan + [c];
          kcs := kcs - {kc};
        }
        assert m.Keys - kcs == m.Keys;
        stores := stores - {store};
      }
      assert t.Keys - stores == t.Keys;
      RunSucceeds(valuePlan, env);
      r := Ok;
    }

    /** The gate before the first mutation. When the mutation stage has not
        begun, it checks every lock, then every expected value, and enters the
        mutation stage only when both succeed; afterwards it does nothing.
        It answers whether any store was ever touched. */
    method PrepareForMutations() returns (r: Result<bool, BackendError>, ghost lockPlan: seq<Call>, ghost valuePlan: seq<Call>)
      modifies this`isMutationStarted, this`calls
      ensures old(isMutationStarted) ==> isMutationStarted && calls == old(calls)
      ensures !old(isMutationStarted) ==>
        && EachOnce(lockPlan, LockCheckCalls(expectedValuesByStore, expectedValuesByStore.Keys, env))
        && EachOnce(valuePlan, ValueCheckCalls(expectedValuesByStore, expectedValuesByStore.Keys))
        && calls == old(calls) + Executed(lockPlan + valuePlan, env)
        && isMutationStarted == FirstFailure(lockPlan + valuePlan, env).Ok?
      ensures r == if isMutationStarted then Success(expectedValuesByStore != map[])
                   else Failure(FirstFailure(lockPlan + valuePlan, env).error)
    {
      lockPlan, valuePlan := [], [];
      var started := IsMutationStarted();
      if !started {
        ghost var before := calls;
        var st;
        st, lockPlan := CheckAllLocks();
        if st.Raised? {
          valuePlan := Enumerate(ValueCheckCalls(expectedValuesByStore, expectedValuesByStore.Keys));
          assert Executed(lockPlan + valuePlan, env) == Executed(lockPlan, env)
                 && FirstFailure(lockPlan + valuePlan, env) == st by {
            RunAppend(lockPlan, valuePlan, env);
          }
          r := Failure(st.error);
          return;
        }
        assert calls == before + lockPlan by {
          RunSucceeds(lockPlan, env);
        }
        st, valuePlan := CheckAllExpectedValues();
        assert Executed(lockPlan + valuePlan, env) == lockPlan + Executed(valuePlan, env)
               && FirstFailure(lockPlan + valuePlan, env) == st by {
          RunSucceeds(lockPlan, env);
          RunAppend(lockPlan, valuePlan, env);
        }
        assert calls == before + (lockPlan + Executed(valuePlan, env));
        if st.Raised? {
          r := Failure(st.error);
          return;
        }
        MutationStarted();
      }
      r := Success(expectedValuesByStore != map[]);
    }

    /** Releases the locks of every touched store, stopping at the first
        release that fails. */
    method DeleteAllLocks() returns (r: Status, ghost releases: seq<Call>)
      modifies this`calls
      ensures EachOnce(releases, ReleaseCalls(expectedValuesByStore, expectedValuesByStore.Keys))
      ensures calls == old(calls) + Executed(releases, env)
      ensures r == FirstFailure(releases, env)
    {
      ghost var t := expectedValuesByStore;
      ghost var all := ReleaseCalls(t, t.Keys);
      var remaining := expectedValuesByStore.Keys;
      releases := [];
      while remaining != {}
        invariant remaining <= t.Keys
        invariant EachOnce(releases, ReleaseCalls(t, t.Keys - remaining))
        invariant calls == old(calls) + releases
        invariant AllOk(releases, env)
        decreases remaining
      {
        var store :| store in remaining;
        ghost var doneSet := ReleaseCalls(t, t.Keys - remaining);
        ghost var c := DeleteLocks(store);
        var st := env.deleteLocks(store);
        calls := calls + [c];
        assert calls == old(calls) + (releases + [c]);
        if st.Raised? {
          r := st;
          ghost var completed := releases + [c] + Enumerate(all - doneSet - {c});
          assert EachOnce(completed, all) && Executed(completed, env) == releases + [c] && FirstFailure(completed, env) == st by {
            ReleaseCallsStep(t, t.Keys - remaining, store);
            EachOnceCompleted(releases, doneSet, c, all);
            RunExtendFail(releases, c, Enumerate(all - doneSet - {c}), env);
          }
          releases := completed;
          return;
        }
        assert EachOnce(releases + [c], ReleaseCalls(t, t.Keys - (remaining - {store})))
               && AllOk(releases + [c], env) by {
          assert t.Keys - (remaining - {store}) == (t.Keys - remaining) + {store};
          ReleaseCallsStep(t, t.Keys - remaining, store);
          EachOnceAppend(releases, doneSet, [c], {c});
          RunExtendOk(releases, c, env);
        }
        releases := releases + [c];
        remaining := remaining - {store};
      }
      assert t.Keys - remaining == t.Keys;
      RunSucceeds(releases, env);
      r := Ok;
    }

    /** Commits the weak transaction, releases every touched store's locks,
        then commits the strong transaction; a failure stops the later steps. */
    method Commit() returns (r: Status, ghost releases: seq<Call>)
      modifies this`calls
      ensures EachOnce(releases, ReleaseCalls(expectedValuesByStore, expectedValuesByStore.Keys))
      ensures calls == old(calls) + Executed(CommitPlan(releases), env)
      ensures r == FirstFailure(CommitPlan(releases), env)
    {
      ghost var before := calls;
      r := env.commitInconsistent;
      calls := calls + [CommitInconsistent];
      if r.Raised? {
        releases := Enumerate(ReleaseCalls(expectedValuesByStore, expectedValuesByStore.Keys));
        assert Executed(CommitPlan(releases), env) == [CommitInconsistent]
               && FirstFailure(CommitPlan(releases), env) == r by {
          CommitRun(releases, env);
        }
        return;
      }
      r, releases := DeleteAllLocks();
      if r.Raised? {
        assert Executed(CommitPlan(releases), env) == [CommitInconsistent] + Executed(releases, env)
               && FirstFailure(CommitPlan(releases), env) == r by {
          CommitRun(releases, env);
        }
        assert calls == before + ([CommitInconsistent] + Executed(releases, env));
        return;
      }
      assert Executed(CommitPlan(releases), env) == [CommitInconsistent] + releases + [CommitStrong]
             && FirstFailure(CommitPlan(releases), env) == env.commitStrong by {
        CommitRun(releases, env);
        RunSucceeds(releases, env);
      }
      assert calls == before + [CommitInconsistent] + releases by {
        RunSucceeds(releases, env);
      }
      r := env.commitStrong;
      calls := calls + [CommitStrong];
      assert calls == before + ([CommitInconsistent] + releases + [CommitStrong]);
    }

    /** Releases every touched store's locks, then rolls back the weak and the
        strong transaction; a failure stops the later steps. */
    method Rollback() returns (r: Status, ghost releases: seq<Call>)
      modifies this`calls
      ensures EachOnce(releases, ReleaseCalls(expectedValuesByStore, expectedValuesByStore.Keys))
      ensures calls == old(calls) + Executed(RollbackPlan(releases), env)
      ensures r == FirstFailure(RollbackPlan(releases), env)
    {
      ghost var before := calls;
      r, releases := DeleteAllLocks();
      if r.Raised? {
        assert Executed(RollbackPlan(releases), env) == Executed(releases, env)
               && FirstFailure(RollbackPlan(releases), env) == r by {
          RollbackRun(releases, env);
        }
        return;
      }
      assert calls == before + releases by {
        RunSucceeds(releases, env);
      }
      r := env.rollbackInconsistent;
      calls := calls + [RollbackInconsistent];
      if r.Raised? {
        assert Executed(RollbackPlan(releases), env) == releases + [RollbackInconsistent]
               && FirstFailure(RollbackPlan(releases), env) == r by {
          RollbackRun(releases, env);
        }
        return;
      }
      assert Executed(RollbackPlan(releases), env) == releases + [RollbackInconsistent, RollbackStrong]
             && FirstFailure(RollbackPlan(releases), env) == env.rollbackStrong by {
        RollbackRun(releases, env);
      }
      r := env.rollbackStrong;
      calls := calls + [RollbackStrong];
      assert calls == before + (releases + [RollbackInconsistent, RollbackStrong]);
    }
  }
}
