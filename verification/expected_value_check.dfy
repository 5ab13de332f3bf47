/**
  The verification engine of ExpectedValueCheckingTransaction
  (`checkSingleExpectedValueUnsafe`, after its slice read): keep the entries
  whose column is exactly the locked column, project them to their values and
  compare that list, in order and by length, with [] (expected absent) or [ev].
*/
module ExpectedValueCheck {
  import opened LockingTypes

  /** The entries whose column is byte-identical to `column`, in read order. */
  function KeepColumn(es: seq<Entry>, column: Bytes): (kept: seq<Entry>)
    ensures |kept| <= |es|
    ensures forall e :: e in kept <==> e in es && e.column == column
  {
    if es == [] then []
    else if es[0].column == column then [es[0]] + KeepColumn(es[1..], column)
    else KeepColumn(es[1..], column)
  }

  /** The value of each entry, in order. */
  function Values(es: seq<Entry>): (vs: seq<Bytes>)
    ensures |vs| == |es|
    ensures forall i :: 0 <= i < |es| ==> vs[i] == es[i].value
  {
    if es == [] then [] else [es[0].value] + Values(es[1..])
  }

  /** The list of values the cell should hold: none, or exactly `ev`. */
  function ExpectedValues(ev: Option<Bytes>): seq<Bytes> {
    match ev
    case None => []
    case Some(v) => [v]
  }

  /** A read that returned null counts as a read of no entries. */
  function ReadEntries(read: Option<seq<Entry>>): seq<Entry> {
    match read
    case None => []
    case Some(es) => es
  }

  /** The values found at the locked column, in read order. */
  function ActualValues(read: Option<seq<Entry>>, column: Bytes): seq<Bytes> {
    Values(KeepColumn(ReadEntries(read), column))
  }

  /** The comparison that ends `checkSingleExpectedValueUnsafe`: success when
      the found values are exactly the expected ones, otherwise a permanent
      mismatch naming the cell, the store and both lists. */
  function CheckSlice(kc: KeyColumn, ev: Option<Bytes>, store: StoreId, read: Option<seq<Entry>>): (st: Status)
  {
    var expected := ExpectedValues(ev);
    var actual := ActualValues(read, kc.column);
    if expected == actual then Ok else Raised(ExpectedValueMismatch(kc, store, expected, actual))
  }

  /** No entry of `es` sits at `column`. */
  ghost predicate NoEntryAt(es: seq<Entry>, column: Bytes) {
    forall i :: 0 <= i < |es| ==> es[i].column != column
  }

  /** Exactly one entry of `es` sits at `column`, and it holds `v`. */
  ghost predicate OnlyEntryAt(es: seq<Entry>, column: Bytes, v: Bytes) {
    exists i :: 0 <= i < |es| && es[i] == Entry(column, v) && forall j :: 0 <= j < |es| && j != i ==> es[j].column != column
  }

  /** Filtering distributes over concatenation. */
  lemma {:induction false} KeepColumnAppend(a: seq<Entry>, b: seq<Entry>, column: Bytes)
    ensures KeepColumn(a + b, column) == KeepColumn(a, column) + KeepColumn(b, column)
  {
    if a == [] {
      assert a + b == b;
    } else {
      assert (a + b)[1..] == a[1..] + b;
      KeepColumnAppend(a[1..], b, column);
    }
  }

  /** The filter keeps nothing exactly when no entry is at the column. */
  lemma KeepColumnEmpty(es: seq<Entry>, column: Bytes)
    ensures KeepColumn(es, column) == [] <==> NoEntryAt(es, column)
  {
    if KeepColumn(es, column) == [] {
      forall i | 0 <= i < |es| ensures es[i].column != column {
        assert es[i] in es;
      }
    } else {
      var e := KeepColumn(es, column)[0];
      assert e in KeepColumn(es, column);
      var i :| 0 <= i < |es| && es[i] == e;
    }
  }

  /** The filter keeps exactly one entry, `Entry(column, v)`, exactly when
      that is the only entry at the column. */
  lemma {:induction false} KeepColumnSingle(es: seq<Entry>, column: Bytes, v: Bytes)
    ensures KeepColumn(es, column) == [Entry(column, v)] <==> OnlyEntryAt(es, column, v)
  {
    if es == [] {
    } else if es[0].column == column {
      var rest := es[1..];
      KeepColumnEmpty(rest, column);
      if KeepColumn(es, column) == [Entry(column, v)] {
        forall j | 0 < j < |es| ensures es[j].column != column {
          assert es[j] == rest[j - 1];
        }
        assert OnlyEntryAt(es, column, v) by {
          assert es[0] == Entry(column, v);
        }
      }
      if OnlyEntryAt(es, column, v) {
        var i :| 0 <= i < |es| && es[i] == Entry(column, v) && forall j :: 0 <= j < |es| && j != i ==> es[j].column != column;
        assert i == 0;
        forall j | 0 <= j < |rest| ensures rest[j].column != column {
          assert rest[j] == es[j + 1];
        }
      }
    } else {
      var rest := es[1..];
      KeepColumnSingle(rest, column, v);
      if OnlyEntryAt(rest, column, v) {
        var i :| 0 <= i < |rest| && rest[i] == Entry(column, v) && forall j :: 0 <= j < |rest| && j != i ==> rest[j].column != column;
        forall j | 0 < j < |es| && j != i + 1 ensures es[j].column != column {
          assert es[j] == rest[j - 1];
        }
        assert es[i + 1] == rest[i];
      }
      if OnlyEntryAt(es, column, v) {
        var i :| 0 <= i < |es| && es[i] == Entry(column, v) && forall j :: 0 <= j < |es| && j != i ==> es[j].column != column;
        assert i > 0;
        forall j | 0 <= j < |rest| && j != i - 1 ensures rest[j].column != column {
          assert rest[j] == es[j + 1];
        }
        assert rest[i - 1] == es[i];
      }
    }
  }

  /** An absent expectation is met exactly when the read returned nothing at
      the locked column (entries at other columns do not matter); a null read
      meets it. */
  lemma AbsentExpectation(kc: KeyColumn, store: StoreId, read: Option<seq<Entry>>)
    ensures CheckSlice(kc, None, store, read).Ok? <==> NoEntryAt(ReadEntries(read), kc.column)
  {
    KeepColumnEmpty(ReadEntries(read), kc.column);
  }

  /** A present expectation `v` is met exactly when the read returned one
      entry at the locked column, holding `v`; a null read fails it. */
  lemma PresentExpectation(kc: KeyColumn, v: Bytes, store: StoreId, read: Option<seq<Entry>>)
    ensures CheckSlice(kc, Some(v), store, read).Ok? <==> OnlyEntryAt(ReadEntries(read), kc.column, v)
  {
    var es := ReadEntries(read);
    var kept := KeepColumn(es, kc.column);
    KeepColumnSingle(es, kc.column, v);
    if Values(kept) == [v] {
      assert kept[0] in kept;
      assert kept == [Entry(kc.column, v)];
    }
  }

  /** Every failure is a permanent mismatch that reports the expected list and
      the list actually found. */
  lemma MismatchIsPermanent(kc: KeyColumn, ev: Option<Bytes>, store: StoreId, read: Option<seq<Entry>>)
    ensures var st := CheckSlice(kc, ev, store, read);
      st.Raised? ==> st.error.IsPermanent() && st.error.kc == kc && st.error.store == store
                     && st.error.expected == ExpectedValues(ev)
                     && st.error.actual == ActualValues(read, kc.column)
  {
  }

  /** Range exactness: an entry at any other column, wherever the read put it,
      has no effect on the outcome. */
  lemma NeighbourIgnored(kc: KeyColumn, ev: Option<Bytes>, store: StoreId, before: seq<Entry>, e: Entry, after: seq<Entry>)
    requires e.column != kc.column
    ensures CheckSlice(kc, ev, store, Some(before + [e] + after)) == CheckSlice(kc, ev, store, Some(before + after))
  {
    var c := kc.column;
    assert KeepColumn([e], c) == [] by {
      assert [e][1..] == [];
    }
    KeepColumnAppend(before + [e], after, c);
    KeepColumnAppend(before, [e], c);
    KeepColumnAppend(before, after, c);
    assert KeepColumn(before + [e] + after, c) == KeepColumn(before + after, c);
  }

  /** Byte-wise lexicographic order: a proper prefix comes first. */
  predicate LexLess(a: Bytes, b: Bytes) {
    |b| > 0 && (|a| == 0 || a[0] < b[0] || (a[0] == b[0] && LexLess(a[1..], b[1..])))
  }

  /** `column` lies inside the column range of `q`. */
  predicate InSlice(q: KeySliceQuery, column: Bytes) {
    (q.sliceStart == column || LexLess(q.sliceStart, column)) && LexLess(column, q.sliceEnd)
  }

  /** `es` is what a correct store answers to `q` when row `q.key` holds the
      columns and values of `row`: each column at most once, each with its
      stored value and inside the range, and every stored column of the range
      present. */
  ghost predicate FaithfulSlice(row: map<Bytes, Bytes>, q: KeySliceQuery, es: seq<Entry>) {
    && (forall i :: 0 <= i < |es| ==> es[i].column in row && row[es[i].column] == es[i].value && InSlice(q, es[i].column))
    && (forall c :: c in row && InSlice(q, c) ==> exists i :: 0 <= i < |es| && es[i].column == c)
    && (forall i, j :: 0 <= i < j < |es| ==> es[i].column != es[j].column)
  }

  /** The compare-and-set surrogate: when the store answers the query
      [column, upper) faithfully and `upper` is strictly greater than the
      column (the contract of the successor buffer), the check succeeds
      exactly when the expectation equals what the cell holds. */
  lemma FaithfulSliceDecides(row: map<Bytes, Bytes>, kc: KeyColumn, ev: Option<Bytes>, store: StoreId, upper: Bytes, es: seq<Entry>)
    requires LexLess(kc.column, upper)
    requires FaithfulSlice(row, KeySliceQuery(kc.key, kc.column, upper), es)
    ensures CheckSlice(kc, ev, store, Some(es)).Ok? <==>
            ev == (if kc.column in row then Some(row[kc.column]) else None)
  {
    var c := kc.column;
    assert InSlice(KeySliceQuery(kc.key, c, upper), c);
    if c in row {
      var i :| 0 <= i < |es| && es[i].column == c;
      assert OnlyEntryAt(es, c, row[c]) by {
        assert es[i] == Entry(c, row[c]);
      }
      match ev
      case None =>
        AbsentExpectation(kc, store, Some(es));
      case Some(v) =>
        PresentExpectation(kc, v, store, Some(es));
        if OnlyEntryAt(es, c, v) {
          var k :| 0 <= k < |es| && es[k] == Entry(c, v) && forall j :: 0 <= j < |es| && j != k ==> es[j].column != c;
          assert k == i;
        }
    } else {
      assert NoEntryAt(es, c);
      AbsentExpectation(kc, store, Some(es));
      match ev
      case None =>
      case Some(v) =>
        PresentExpectation(kc, v, store, Some(es));
    }
  }

  /** Expected "v1", read returns exactly "v1" at the column: success. */
  lemma PresentValueMatches(kc: KeyColumn, store: StoreId, v1: Bytes)
    ensures CheckSlice(kc, Some(v1), store, Some([Entry(kc.column, v1)])) == Ok
  {
  }

  /** Expected absent, read returns only a neighbouring column: success. */
  lemma AbsentIgnoresNeighbour(kc: KeyColumn, store: StoreId, c2: Bytes, x: Bytes)
    requires c2 != kc.column
    ensures CheckSlice(kc, None, store, Some([Entry(c2, x)])) == Ok
  {
  }

  /** Expected "v1", read returns "v2" at the column: a permanent mismatch
      naming the cell, ["v1"] and ["v2"]. */
  lemma ChangedValueMismatches(kc: KeyColumn, store: StoreId, v1: Bytes, v2: Bytes)
    requires v1 != v2
    ensures CheckSlice(kc, Some(v1), store, Some([Entry(kc.column, v2)]))
            == Raised(ExpectedValueMismatch(kc, store, [v1], [v2]))
  {
    var es := [Entry(kc.column, v2)];
    assert es[1..] == [];
    assert KeepColumn(es, kc.column) == es;
    assert Values(es) == [v2];
    assert [v1] != [v2] by {
      assert [v1][0] != [v2][0];
    }
  }
}
