/**
  The expectation table of ExpectedValueCheckingTransaction
  (`expectedValuesByStore`): for every touched store, the value each locked
  cell is expected to hold, or None (Java null) when the cell is expected to
  be absent. The class methods LockedOn and StoreExpectedValue are specified
  by the functions of this module.
*/
module ExpectationTable {
  import opened LockingTypes

  /** Its keys are the touched stores: every store an expectation was ever
      registered on. */
  type Table = map<StoreId, map<KeyColumn, Option<Bytes>>>

  /** The effect of `lockedOn(store)`: the store gets an empty bucket unless it
      has one already. */
  function WithBucket(t: Table, store: StoreId): (r: Table)
    ensures r.Keys == t.Keys + {store}
    ensures r[store] == if store in t then t[store] else map[]
    ensures forall s :: s in t && s != store ==> r[s] == t[s]
  {
    if store in t then t else t[store := map[]]
  }

  /** The effect of `storeExpectedValue(store, kc, value)`: the store is
      touched, and the cell gets `value` unless an expectation for it was
      registered earlier, in which case the earlier one is kept. */
  function WithExpectation(t: Table, store: StoreId, kc: KeyColumn, value: Option<Bytes>): (r: Table)
    ensures r.Keys == t.Keys + {store}
    ensures forall s :: s in t && s != store ==> r[s] == t[s]
    ensures r[store].Keys == (if store in t then t[store].Keys else {}) + {kc}
    ensures r[store][kc] == if store in t && kc in t[store] then t[store][kc] else value
    ensures forall k :: k in r[store] && k != kc ==> r[store][k] == t[store][k]
  {
    var withBucket := WithBucket(t, store);
    var bucket := withBucket[store];
    if kc in bucket then withBucket else withBucket[store := bucket[kc := value]]
  }

  /** A registration for a cell that already has an expectation changes
      nothing at all. */
  lemma RegisteredCellIsKept(t: Table, store: StoreId, kc: KeyColumn, value: Option<Bytes>)
    requires store in t && kc in t[store]
    ensures WithExpectation(t, store, kc, value) == t
  {
  }

  /** First write wins: of two registrations for the same cell, the second
      is discarded whatever the two values are. */
  lemma FirstWriteWins(t: Table, store: StoreId, kc: KeyColumn, first: Option<Bytes>, second: Option<Bytes>)
    ensures WithExpectation(WithExpectation(t, store, kc, first), store, kc, second)
            == WithExpectation(t, store, kc, first)
    ensures WithExpectation(WithExpectation(t, store, kc, first), store, kc, second)[store][kc]
            == if store in t && kc in t[store] then t[store][kc] else first
  {
    RegisteredCellIsKept(WithExpectation(t, store, kc, first), store, kc, second);
  }

  /** Registering even an "expected absent" value touches the store, so the
      table is no longer empty. */
  lemma RegistrationTouchesStore(t: Table, store: StoreId, kc: KeyColumn)
    ensures var r := WithExpectation(t, store, kc, None);
      store in r && r != map[] && r[store][kc] == (if store in t && kc in t[store] then t[store][kc] else None)
  {
  }
}
