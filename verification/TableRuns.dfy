/** What every run of table operations keeps. */
module TableRuns {
  import opened Types
  import opened KeyOrder
  import opened OrderedMap
  import opened Buckets
  import opened IndexSpec
  import opened TableSpec

  /** The index agrees with the rows as sets of row numbers per key. */
  ghost predicate IndexAgrees(columns: seq<int>, rows: seq<Row>, idx: IndexState)
    requires IndexOk(columns, idx) && RowsTyped(rows, columns)
  {
    Agrees(idx.mask, idx.entries, KeysOf(KeysOfRows(columns, rows, idx.cols, idx.mask)))
  }

  ghost predicate InSync(s: State)
    requires WellFormed(s)
  {
    forall i :: 0 <= i < |s.indexes| ==> IndexAgrees(s.columns, s.rows, s.indexes[i])
  }

  predicate BucketsSorted(s: State) {
    forall i :: 0 <= i < |s.indexes| ==> AllSorted(s.indexes[i].entries)
  }

  /** Every index is the one `BuildIndex` would make from the current rows. */
  predicate Exact(s: State)
    requires WellFormed(s)
  {
    forall i :: 0 <= i < |s.indexes| ==>
      s.indexes[i] == BuildIndex(s.columns, s.rows, s.indexes[i].cols, s.indexes[i].mask)
  }

  /** An index with every bucket sorted that agrees with the rows is exactly the one built from scratch. */
  lemma ExactIsSortedAgreement(s: State)
    requires WellFormed(s)
    ensures Exact(s) <==> InSync(s) && BucketsSorted(s)
  {
    forall i | 0 <= i < |s.indexes|
      ensures s.indexes[i] == BuildIndex(s.columns, s.rows, s.indexes[i].cols, s.indexes[i].mask) <==>
              IndexAgrees(s.columns, s.rows, s.indexes[i]) && AllSorted(s.indexes[i].entries)
    {
      var idx := s.indexes[i];
      BuildUnique(idx.mask, idx.entries, KeysOfRows(s.columns, s.rows, idx.cols, idx.mask));
    }
  }

  // Row keys under the row operations

  lemma KeysAppend(ks: seq<Key>, k: Key)
    ensures KeysOf(ks + [k]) == KeysOf(ks)[|ks| := k]
  {
  }

  lemma KeysInsert(ks: seq<Key>, r: nat, k: Key)
    requires r <= |ks|
    ensures KeysOf(ks[..r] + [k] + ks[r..]) == RaiseKeys(KeysOf(ks), r)[r := k]
  {
    RaiseKeysSpec(KeysOf(ks), r);
    var a, b := KeysOf(ks[..r] + [k] + ks[r..]), RaiseKeys(KeysOf(ks), r)[r := k];
    assert a.Keys == b.Keys;
  }

  lemma KeysDelete(ks: seq<Key>, r: nat)
    requires r < |ks|
    ensures KeysOf(ks[..r] + ks[r + 1..]) == LowerKeys(KeysOf(ks) - {r}, r)
  {
    hide LowerKeys, KeysOf, BeforeDelete;
    LowerKeysSpec(KeysOf(ks) - {r}, r);
    LoweredKey(KeysOf(ks) - {r}, r);
    var a, b := KeysOf(ks[..r] + ks[r + 1..]), LowerKeys(KeysOf(ks) - {r}, r);
    forall y: nat
      ensures y in a <==> y in b
      ensures y in a ==> a[y] == b[y]
    {
      KeyBeforeDelete(ks, r, y);
    }
  }

  lemma KeyBeforeDelete(ks: seq<Key>, r: nat, y: nat)
    requires r < |ks|
    ensures
      var a, rk, x := KeysOf(ks[..r] + ks[r + 1..]), KeysOf(ks) - {r}, BeforeDelete(y, r);
      (y in a <==> x in rk) && (y in a ==> a[y] == rk[x])
  {
  }

  lemma KeysSet(ks: seq<Key>, r: nat, k: Key)
    requires r < |ks|
    ensures KeysOf(ks[r := k]) == (KeysOf(ks) - {r})[r := k]
  {
  }

  // One operation, one index

  /** Bisection finds the right place wherever the operation renumbers rows. */
  predicate IndexSafe(s: State, op: Op, idx: IndexState)
    requires WellFormed(s) && OpOk(s, op) && Accepted(s, op) && IndexOk(s.columns, idx)
  {
    match op
    case Insert(r, _, _) => AllSplit(idx.entries, r)
    case Delete(r) => AllSplit(IndexDelete(s.columns, idx, s.rows[r], r, false).entries, r)
    case _ => true
  }

  lemma AppendIndex(s: State, op: Op, idx: IndexState)
    requires WellFormed(s) && OpOk(s, op) && Accepted(s, op) && IndexOk(s.columns, idx)
    requires IndexAgrees(s.columns, s.rows, idx) && op.Append?
    ensures IndexAgrees(s.columns, RowsAfter(s, op), IndexAfter(s, op, idx))
    ensures AllSorted(idx.entries) ==> AllSorted(IndexAfter(s, op, idx).entries)
  {
    hide LexLess, KeyTyped, NotifyInsert, FullRow, RowTyped;
    var row, n := NewRow(s, op), |s.rows|;
    KeyStored(s.columns, idx.cols, idx.mask, row);
    var k := KeyOf(row, idx.cols);
    var ks := KeysOfRows(s.columns, s.rows, idx.cols, idx.mask);
    assert KeysOfRows(s.columns, s.rows + [row], idx.cols, idx.mask) == ks + [k];
    KeysAppend(ks, k);
    InsertAgrees(idx.mask, idx.entries, KeysOf(ks), k, n);
    if AllSorted(idx.entries) {
      InsertSortedExact(idx.mask, idx.entries, k, n);
      assert Holds(BucketOf(idx.entries, k), KeysOf(ks), k);
    }
  }

  lemma InsertIndex(s: State, op: Op, idx: IndexState)
    requires WellFormed(s) && OpOk(s, op) && Accepted(s, op) && IndexOk(s.columns, idx)
    requires IndexAgrees(s.columns, s.rows, idx) && op.Insert?
    ensures IndexAgrees(s.columns, RowsAfter(s, op), IndexAfter(s, op, idx)) <==> IndexSafe(s, op, idx)
    ensures AllSorted(idx.entries) ==> AllSorted(IndexAfter(s, op, idx).entries)
  {
    hide LexLess, KeyTyped, NotifyInsert, FullRow, RowTyped, RaiseKeys, Agrees;
    var row, r := NewRow(s, op), op.r;
    KeyStored(s.columns, idx.cols, idx.mask, row);
    var k := KeyOf(row, idx.cols);
    var ks := KeysOfRows(s.columns, s.rows, idx.cols, idx.mask);
    assert KeysOfRows(s.columns, s.rows[..r] + [row] + s.rows[r..], idx.cols, idx.mask) == ks[..r] + [k] + ks[r..];
    KeysInsert(ks, r, k);
    InsertRowExact(idx.mask, idx.entries, KeysOf(ks), k, r);
  }

  lemma DeleteIndex(s: State, op: Op, idx: IndexState)
    requires WellFormed(s) && OpOk(s, op) && Accepted(s, op) && IndexOk(s.columns, idx)
    requires IndexAgrees(s.columns, s.rows, idx) && op.Delete?
    ensures IndexAgrees(s.columns, RowsAfter(s, op), IndexAfter(s, op, idx)) <==> IndexSafe(s, op, idx)
    ensures AllSorted(idx.entries) ==> IndexSafe(s, op, idx) && AllSorted(IndexAfter(s, op, idx).entries)
  {
    hide LexLess, KeyTyped, NotifyInsert, LowerKeys, Agrees, Unlink, AllSplit, LowerAll;
    var row, r := s.rows[op.r], op.r;
    KeyStored(s.columns, idx.cols, idx.mask, row);
    var k := KeyOf(row, idx.cols);
    var ks := KeysOfRows(s.columns, s.rows, idx.cols, idx.mask);
    assert KeysOfRows(s.columns, s.rows[..r] + s.rows[r + 1..], idx.cols, idx.mask) == ks[..r] + ks[r + 1..];
    KeysDelete(ks, r);
    UnlinkAgrees(idx.mask, idx.entries, KeysOf(ks), r);
    var m := Unlink(idx.mask, idx.entries, k, r);
    LowerRowExact(idx.mask, m, KeysOf(ks) - {r}, r);
    if AllSorted(idx.entries) {
      UnlinkSorted(idx.mask, idx.entries, KeysOf(ks), r);
      SortedAllSplit(m, r);
    }
  }

  /**
   * Rewriting row `r`: the index keeps agreeing, and sorted buckets stay sorted exactly when `r` exceeds every other
   * row with the new key.
   */
  lemma ChangeIndex(columns: seq<int>, rows: seq<Row>, idx: IndexState, r: nat, row: Row)
    requires RowsTyped(rows, columns) && IndexOk(columns, idx) && RowTyped(row, columns) && r < |rows|
    requires IndexAgrees(columns, rows, idx)
    ensures RowsTyped(rows[r := row], columns)
    ensures IndexHas(columns, idx, rows[r], r)
    ensures IndexAgrees(columns, rows[r := row], IndexChange(columns, idx, rows[r], row, r))
    ensures AllSorted(idx.entries) ==>
              (AllSorted(IndexChange(columns, idx, rows[r], row, r).entries) <==>
               forall y :: 0 <= y < |rows| && y != r && KeyOf(rows[y], idx.cols) == KeyOf(row, idx.cols) ==> y < r)
  {
    hide AllSorted, IndexAgrees, IndexChange, IndexHas, IndexOk, KeyOf;
    ChangeAgrees(columns, rows, idx, r, row);
    if AllSorted(idx.entries) {
      ChangeSorted(columns, rows, idx, r, row);
    }
  }

  /** The keys of the rows, the keys after the change, and what the change does to the entries. */
  lemma ChangeKeys(columns: seq<int>, rows: seq<Row>, idx: IndexState, r: nat, row: Row)
    requires RowsTyped(rows, columns) && IndexOk(columns, idx) && RowTyped(row, columns) && r < |rows|
    requires IndexAgrees(columns, rows, idx)
    ensures RowsTyped(rows[r := row], columns) && IndexHas(columns, idx, rows[r], r)
    ensures
      var ks := KeysOfRows(columns, rows, idx.cols, idx.mask);
      StoredKey(idx.mask, ks[r]) && Present(idx.mask, idx.entries, ks[r], r)
    ensures
      var ks := KeysOfRows(columns, rows, idx.cols, idx.mask);
      var m := Unlink(idx.mask, idx.entries, ks[r], r);
      var k' := KeyOf(row, idx.cols);
      && StoredKey(idx.mask, ks[r]) && StoredKey(idx.mask, k') && Agrees(idx.mask, m, KeysOf(ks) - {r})
      && KeysOf(KeysOfRows(columns, rows[r := row], idx.cols, idx.mask)) == (KeysOf(ks) - {r})[r := k']
      && IndexChange(columns, idx, rows[r], row, r) == idx.(entries := NotifyInsert(idx.mask, m, k', r, false))
  {
    hide LexLess, KeyTyped, NotifyInsert, Unlink, Agrees;
    KeyStored(columns, idx.cols, idx.mask, rows[r]);
    KeyStored(columns, idx.cols, idx.mask, row);
    var k' := KeyOf(row, idx.cols);
    var ks := KeysOfRows(columns, rows, idx.cols, idx.mask);
    assert KeysOfRows(columns, rows[r := row], idx.cols, idx.mask) == ks[r := k'];
    KeysSet(ks, r, k');
    UnlinkAgrees(idx.mask, idx.entries, KeysOf(ks), r);
  }

  lemma ChangeAgrees(columns: seq<int>, rows: seq<Row>, idx: IndexState, r: nat, row: Row)
    requires RowsTyped(rows, columns) && IndexOk(columns, idx) && RowTyped(row, columns) && r < |rows|
    requires IndexAgrees(columns, rows, idx)
    ensures RowsTyped(rows[r := row], columns) && IndexHas(columns, idx, rows[r], r)
    ensures IndexAgrees(columns, rows[r := row], IndexChange(columns, idx, rows[r], row, r))
  {
    hide StoredKey, NotifyInsert, Unlink, Agrees, IndexChange, IndexHas, KeysOf;
    ChangeKeys(columns, rows, idx, r, row);
    var ks := KeysOfRows(columns, rows, idx.cols, idx.mask);
    var m := Unlink(idx.mask, idx.entries, ks[r], r);
    NotLinked(ks, r);
    InsertAgrees(idx.mask, m, KeysOf(ks) - {r}, KeyOf(row, idx.cols), r);
  }

  lemma NotLinked(ks: seq<Key>, r: nat)
    ensures r !in KeysOf(ks) - {r}
  {
  }

  lemma ChangeSorted(columns: seq<int>, rows: seq<Row>, idx: IndexState, r: nat, row: Row)
    requires RowsTyped(rows, columns) && IndexOk(columns, idx) && RowTyped(row, columns) && r < |rows|
    requires IndexAgrees(columns, rows, idx) && AllSorted(idx.entries) && IndexHas(columns, idx, rows[r], r)
    ensures AllSorted(IndexChange(columns, idx, rows[r], row, r).entries) <==>
            forall y :: 0 <= y < |rows| && y != r && KeyOf(rows[y], idx.cols) == KeyOf(row, idx.cols) ==> y < r
  {
    hide StoredKey, NotifyInsert, Unlink, IndexChange, IndexHas, AllSorted, Ascending, LexLess;
    ChangeKeys(columns, rows, idx, r, row);
    var ks, k' := KeysOfRows(columns, rows, idx.cols, idx.mask), KeyOf(row, idx.cols);
    var m := Unlink(idx.mask, idx.entries, ks[r], r);
    UnlinkSorted(idx.mask, idx.entries, KeysOf(ks), r);
    InsertSortedExact(idx.mask, m, k', r);
    assert Holds(BucketOf(m, k'), KeysOf(ks) - {r}, k');
    hide BucketOf, Agrees, NoEmptyBucket;
    forall y | 0 <= y < |rows|
      ensures y in BucketOf(m, k') <==> y != r && KeyOf(rows[y], idx.cols) == k'
    {
      assert ks[y] == KeyOf(rows[y], idx.cols);
    }
  }

  /** An index that does not cover the changed column needs no update. */
  lemma UncoveredColumn(columns: seq<int>, rows: seq<Row>, idx: IndexState, r: nat, c: nat, d: Data)
    requires RowsTyped(rows, columns) && IndexOk(columns, idx) && r < |rows| && c < |columns| && HasType(d, columns[c])
    requires c !in idx.cols
    ensures RowsTyped(rows[r := rows[r][c := d]], columns)
    ensures IndexAgrees(columns, rows[r := rows[r][c := d]], idx) <==> IndexAgrees(columns, rows, idx)
  {
    var rows' := rows[r := rows[r][c := d]];
    assert RowTyped(rows[r][c := d], columns);
    assert KeyOf(rows'[r], idx.cols) == KeyOf(rows[r], idx.cols);
    assert KeysOfRows(columns, rows', idx.cols, idx.mask) == KeysOfRows(columns, rows, idx.cols, idx.mask);
  }

  // One operation, all indexes

  predicate StepSafe(s: State, op: Op)
    requires WellFormed(s) && OpOk(s, op)
  {
    Accepted(s, op) ==> forall i :: 0 <= i < |s.indexes| ==> IndexSafe(s, op, s.indexes[i])
  }

  lemma IndexStep(s: State, op: Op, idx: IndexState)
    requires WellFormed(s) && OpOk(s, op) && Accepted(s, op) && IndexOk(s.columns, idx)
    requires IndexAgrees(s.columns, s.rows, idx)
    ensures IndexAgrees(s.columns, RowsAfter(s, op), IndexAfter(s, op, idx)) <==> IndexSafe(s, op, idx)
    ensures AllSorted(idx.entries) ==> IndexSafe(s, op, idx)
    ensures AllSorted(idx.entries) && !op.SetRow? && !op.SetCell? ==> AllSorted(IndexAfter(s, op, idx).entries)
  {
    hide IndexAgrees, AllSorted, AllSplit;
    match op
    case Append(_, _) => AppendIndex(s, op, idx);
    case Insert(r, _, _) =>
      InsertIndex(s, op, idx);
      if AllSorted(idx.entries) {
        SortedAllSplit(idx.entries, r);
      }
    case Delete(_) => DeleteIndex(s, op, idx);
    case SetRow(r, _, _) => ChangeIndex(s.columns, s.rows, idx, r, NewRow(s, op));
    case SetCell(r, c, v) =>
      if c in idx.cols {
        ChangeIndex(s.columns, s.rows, idx, r, NewRow(s, op));
      } else {
        assert RowTyped(NewRow(s, op), s.columns);
        UncoveredColumn(s.columns, s.rows, idx, r, c, v.data);
      }
    case _ =>
  }

  /** An operation keeps all indexes in agreement with the rows exactly when it is safe for each of them. */
  lemma StepInSync(s: State, op: Op)
    requires WellFormed(s) && OpOk(s, op) && InSync(s)
    ensures InSync(Step(s, op)) <==> StepSafe(s, op)
    ensures BucketsSorted(s) ==> StepSafe(s, op)
    ensures BucketsSorted(s) && !op.SetRow? && !op.SetCell? ==> BucketsSorted(Step(s, op))
  {
    hide IndexAgrees, IndexAfter, RowsAfter, AllSorted, IndexSafe, CountsAfter;
    if Accepted(s, op) {
      var s' := Step(s, op);
      forall i | 0 <= i < |s.indexes|
        ensures IndexAgrees(s.columns, RowsAfter(s, op), IndexAfter(s, op, s.indexes[i]))
                <==> IndexSafe(s, op, s.indexes[i])
        ensures AllSorted(s.indexes[i].entries) ==> IndexSafe(s, op, s.indexes[i])
        ensures AllSorted(s.indexes[i].entries) && !op.SetRow? && !op.SetCell? ==>
                  AllSorted(IndexAfter(s, op, s.indexes[i]).entries)
      {
        IndexStep(s, op, s.indexes[i]);
      }
      if op.Subscribe? {
        SubscribeInSync(s, op);
      } else if op.Unsubscribe? {
        UnsubscribeInSync(s, op);
      } else {
        assert forall i :: 0 <= i < |s.indexes| ==> s'.indexes[i] == IndexAfter(s, op, s.indexes[i]);
      }
    }
  }

  lemma SubscribeInSync(s: State, op: Op)
    requires WellFormed(s) && OpOk(s, op) && InSync(s) && op.Subscribe?
    ensures InSync(Step(s, op)) && StepSafe(s, op)
    ensures BucketsSorted(s) ==> BucketsSorted(Step(s, op))
  {
    hide AllSorted, Agrees;
    BuildAgrees(op.mask, KeysOfRows(s.columns, s.rows, op.cols, op.mask));
  }

  lemma UnsubscribeInSync(s: State, op: Op)
    requires WellFormed(s) && OpOk(s, op) && InSync(s) && op.Unsubscribe?
    ensures InSync(Step(s, op)) && StepSafe(s, op)
    ensures BucketsSorted(s) ==> BucketsSorted(Step(s, op))
  {
    hide AllSorted, IndexAgrees;
    if Accepted(s, op) {
      assert RowsAfter(s, op) == s.rows;
      forall i | 0 <= i < |Step(s, op).indexes|
        ensures Step(s, op).indexes[i] == s.indexes[if i < op.i then i else i + 1]
      {
      }
    }
  }

  // Runs

  predicate RunOk(s: State, ops: seq<Op>)
    decreases |ops|
  {
    WellFormed(s) && (ops != [] ==> OpOk(s, ops[0]) && RunOk(Step(s, ops[0]), ops[1..]))
  }

  function Run(s: State, ops: seq<Op>): (s': State)
    requires RunOk(s, ops)
    ensures WellFormed(s')
    decreases |ops|
  {
    if ops == [] then s else Run(Step(s, ops[0]), ops[1..])
  }

  /** The indexes agree with the rows after every prefix of the run. */
  ghost predicate AlwaysInSync(s: State, ops: seq<Op>)
    requires RunOk(s, ops)
    decreases |ops|
  {
    InSync(s) && (ops != [] ==> AlwaysInSync(Step(s, ops[0]), ops[1..]))
  }

  ghost predicate AlwaysSafe(s: State, ops: seq<Op>)
    requires RunOk(s, ops)
    decreases |ops|
  {
    ops != [] ==> StepSafe(s, ops[0]) && AlwaysSafe(Step(s, ops[0]), ops[1..])
  }

  /** Every accepted insertion and deletion of the run starts from sorted buckets. */
  ghost predicate RenumbersSorted(s: State, ops: seq<Op>)
    requires RunOk(s, ops)
    decreases |ops|
  {
    ops != [] ==>
      && ((ops[0].Insert? || ops[0].Delete?) ==> BucketsSorted(s))
      && RenumbersSorted(Step(s, ops[0]), ops[1..])
  }

  /**
   * Over any run of operations of any kind, the indexes agree with the table throughout if and only if bisection
   * finds the right place at every renumbering.
   */
  lemma {:induction false} RunInSync(s: State, ops: seq<Op>)
    requires RunOk(s, ops) && InSync(s)
    ensures AlwaysInSync(s, ops) <==> AlwaysSafe(s, ops)
    decreases |ops|
  {
    hide InSync, StepSafe, Step, OpOk, WellFormed;
    if ops != [] {
      StepInSync(s, ops[0]);
      if StepSafe(s, ops[0]) {
        RunInSync(Step(s, ops[0]), ops[1..]);
      } else {
        NotInSync(Step(s, ops[0]), ops[1..]);
      }
    }
  }

  lemma NotInSync(s: State, ops: seq<Op>)
    requires RunOk(s, ops) && !InSync(s)
    ensures !AlwaysInSync(s, ops)
  {
  }

  /** Starting every insertion and deletion from sorted buckets is enough. */
  lemma {:induction false} RunFromSorted(s: State, ops: seq<Op>)
    requires RunOk(s, ops) && InSync(s) && RenumbersSorted(s, ops)
    ensures AlwaysInSync(s, ops)
    decreases |ops|
  {
    hide InSync, Step, OpOk, WellFormed, BucketsSorted;
    if ops != [] {
      StepInSync(s, ops[0]);
      assert StepSafe(s, ops[0]);
      RunFromSorted(Step(s, ops[0]), ops[1..]);
    }
  }

  /**
   * After any run that appends, inserts and deletes rows and subscribes and unsubscribes indexes, every subscribed
   * index is exactly the one `BuildIndex` would make from the current rows.
   */
  lemma {:induction false} RunExact(s: State, ops: seq<Op>)
    requires RunOk(s, ops) && Exact(s)
    requires forall i :: 0 <= i < |ops| ==> !ops[i].SetRow? && !ops[i].SetCell?
    ensures Exact(Run(s, ops))
    decreases |ops|
  {
    hide InSync, Step, OpOk, WellFormed, BucketsSorted, Exact, StepSafe;
    if ops != [] {
      ExactIsSortedAgreement(s);
      StepInSync(s, ops[0]);
      ExactIsSortedAgreement(Step(s, ops[0]));
      RunExact(Step(s, ops[0]), ops[1..]);
    }
  }

  /** In an exact index the bucket of a key is the strictly ascending list of exactly the rows with that key. */
  lemma ExactBuckets(s: State, i: nat, p: nat)
    requires WellFormed(s) && Exact(s) && i < |s.indexes| && p < |s.indexes[i].entries|
    ensures
      var idx := s.indexes[i];
      var b := idx.entries[p].val;
      && b != [] && Sorted(b)
      && forall x: nat :: x in b <==> x < |s.rows| && KeyOf(s.rows[x], idx.cols) == idx.entries[p].key
  {
    hide LexLess, KeyTyped;
    ExactIsSortedAgreement(s);
    var idx := s.indexes[i];
    var ks := KeysOfRows(s.columns, s.rows, idx.cols, idx.mask);
    assert IndexAgrees(s.columns, s.rows, idx);
    LookupAt(idx.mask, idx.entries, p);
    assert Holds(BucketOf(idx.entries, idx.entries[p].key), KeysOf(ks), idx.entries[p].key);
  }

  /** Every row is in exactly one bucket: the one of its key. */
  lemma ExactCovers(s: State, i: nat, x: nat)
    requires WellFormed(s) && Exact(s) && i < |s.indexes| && x < |s.rows|
    ensures
      var m := s.indexes[i].entries;
      exists p :: 0 <= p < |m| && x in m[p].val && forall q :: 0 <= q < |m| && q != p ==> x !in m[q].val
  {
    hide LexLess, KeyTyped;
    ExactIsSortedAgreement(s);
    var idx := s.indexes[i];
    var m, k := idx.entries, KeyOf(s.rows[x], idx.cols);
    var ks := KeysOfRows(s.columns, s.rows, idx.cols, idx.mask);
    assert IndexAgrees(s.columns, s.rows, idx);
    assert Holds(BucketOf(m, k), KeysOf(ks), k);
    assert x in KeysOf(ks) && x in BucketOf(m, k);
    assert k in Keys(m);
    var p :| 0 <= p < |m| && m[p].key == k;
    LookupAt(idx.mask, m, p);
    forall q | 0 <= q < |m| && q != p
      ensures x !in m[q].val
    {
      ExactBuckets(s, i, q);
      DistinctKeys(idx.mask, m, p, q);
    }
  }

  // A run that loses agreement: rows 0 and 1 hold 1 and 2, row 0 is set to 2, then a row is inserted before row 1

  const MASK: seq<int> := [INTEGER]
  const FIRST: nat := 0
  const TWO_ROWS := State([INTEGER], [[I64(1)], [I64(2)]], [], map[])
  const INDEX := Subscribe([FIRST], MASK)
  const SET_FIRST := SetRow(0, [Dyn(INTEGER, I64(2))], [I64(0)])
  const INSERT_SECOND := Insert(1, [Dyn(INTEGER, I64(5))], [I64(0)])

  lemma BisectMisses()
    ensures !Splits([1, 0], 1)
  {
    var b: Bucket := [1, 0];
    assert Bisect(b, 1, 2, 0) == 2;
    assert Bisect(b, 1, 0, 2) == 2;
    assert LowerBoundOf(b, 1) == 2 && b[0] == 1;
  }

  /** Row 0 moved to the bucket of row 1 ends up behind it. */
  lemma ReaddedLast(mask: seq<int>, m: IndexMap, k1: Key, k2: Key)
    requires Agrees(mask, m, map[0 := k1, 1 := k2]) && AllSorted(m)
    requires StoredKey(mask, k1) && StoredKey(mask, k2) && k1 != k2
    ensures Present(mask, m, k1, 0) && Ascending(mask, Unlink(mask, m, k1, 0))
    ensures BucketOf(NotifyInsert(mask, Unlink(mask, m, k1, 0), k2, 0, false), k2) == [1, 0]
  {
    hide LexLess, KeyTyped, NotifyInsert, Unlink, Ascending, AllSorted, NoEmptyBucket, StoredKey;
    var rk: RowKeys := map[0 := k1, 1 := k2];
    UnlinkAgrees(mask, m, rk, 0);
    Unlinked(mask, m, k1, 0);
    InsertNotified(mask, Unlink(mask, m, k1, 0), k2, 0);
    LoneRow(mask, m, k1, k2);
  }

  lemma LoneRow(mask: seq<int>, m: IndexMap, k1: Key, k2: Key)
    requires Agrees(mask, m, map[0 := k1, 1 := k2]) && AllSorted(m) && k1 != k2
    ensures BucketOf(m, k2) == [1]
  {
    hide LexLess, KeyTyped, Ascending, NoEmptyBucket, BucketOf;
    var rk: RowKeys := map[0 := k1, 1 := k2];
    assert Holds(BucketOf(m, k2), rk, k2);
    AllSortedByKey(mask, m);
    SortedUnique(BucketOf(m, k2), [1]);
  }

  lemma TwoRowsOk()
    ensures WellFormed(TWO_ROWS) && OpOk(TWO_ROWS, INDEX) && Accepted(TWO_ROWS, INDEX)
    ensures var s := Step(TWO_ROWS, INDEX);
            && Exact(s) && InSync(s) && |s.indexes| == 1 && s.rows == TWO_ROWS.rows
            && s.indexes[0].cols == [FIRST] && s.indexes[0].mask == MASK
  {
    ExactIsSortedAgreement(TWO_ROWS);
    assert MASK[0] == INTEGER;
    StepInSync(TWO_ROWS, INDEX);
    ExactIsSortedAgreement(Step(TWO_ROWS, INDEX));
  }

  lemma InSyncAt(s: State, i: nat)
    requires WellFormed(s) && InSync(s) && i < |s.indexes|
    ensures IndexAgrees(s.columns, s.rows, s.indexes[i])
  {
  }

  lemma SetThenInsertBreaks()
    ensures WellFormed(TWO_ROWS) && OpOk(TWO_ROWS, INDEX)
    ensures
      var s := Step(TWO_ROWS, INDEX);
      && Exact(s) && OpOk(s, SET_FIRST) && OpOk(Step(s, SET_FIRST), INSERT_SECOND)
      && InSync(Step(s, SET_FIRST)) && !InSync(Step(Step(s, SET_FIRST), INSERT_SECOND))
  {
    hide NotifyInsert, Unlink, Splits, Agrees, Ascending, AllSorted, KeyTyped, LexLess, InSync;
    TwoRowsOk();
    var s := Step(TWO_ROWS, INDEX);
    var idx := s.indexes[0];
    var k1, k2: Key := [KI(1)], [KI(2)];
    var ks := KeysOfRows(s.columns, s.rows, idx.cols, idx.mask);
    assert s.rows[0] == [I64(1)] && s.rows[1] == [I64(2)];
    assert KeyOf(s.rows[0], idx.cols) == k1 && KeyOf(s.rows[1], idx.cols) == k2;
    assert KeysOf(ks) == map[0 := k1, 1 := k2];
    ExactIsSortedAgreement(s);
    InSyncAt(s, 0);
    assert BucketsSorted(s);
    ReaddedLast(idx.mask, idx.entries, k1, k2);
    assert NewRow(s, SET_FIRST) == [I64(2)];
    StepInSync(s, SET_FIRST);
    var s1 := Step(s, SET_FIRST);
    assert s1.indexes[0] == IndexChange(s.columns, idx, s.rows[0], [I64(2)], 0);
    assert KeyOf([I64(2)], idx.cols) == k2 && KeyOf(s.rows[0], idx.cols) == k1;
    assert BucketOf(s1.indexes[0].entries, k2) == [1, 0];
    AllSplitByKey(idx.mask, s1.indexes[0].entries, 1);
    BisectMisses();
    StepInSync(s1, INSERT_SECOND);
  }
}
