/** What the notifications do to an index map, and when the map agrees with the table. */
module IndexSpec {
  import opened Types
  import opened KeyOrder
  import opened OrderedMap
  import opened Buckets

  type IndexMap = OMap<Bucket>

  /** The key of every row, by row number. */
  type RowKeys = map<nat, Key>

  function SetValue<V>(m: OMap<V>, p: nat, v: V): OMap<V>
    requires p < |m|
  {
    m[p := Entry(m[p].key, v)]
  }

  /** `index_map_[key]`: adds an empty bucket for a new key. */
  function Touch(mask: seq<int>, m: IndexMap, k: Key): (m': IndexMap)
    requires Ascending(mask, m) && StoredKey(mask, k)
    ensures LowerBound(mask, m, k) < |m'|
  {
    var p := LowerBound(mask, m, k);
    if Find(mask, m, k).Some? then m else InsertAt(m, p, k, [])
  }

  function RaiseAll(m: IndexMap, row: nat): IndexMap {
    seq(|m|, i requires 0 <= i < |m| => Entry(m[i].key, Raise(m[i].val, row)))
  }

  function LowerAll(m: IndexMap, row: nat): IndexMap {
    seq(|m|, i requires 0 <= i < |m| => Entry(m[i].key, Lower(m[i].val, row)))
  }

  /** `TableIndex::NotifyRowInsert` */
  function NotifyInsert(mask: seq<int>, m: IndexMap, k: Key, row: nat, incremental: bool): IndexMap
    requires Ascending(mask, m) && StoredKey(mask, k)
  {
    var p := LowerBound(mask, m, k);
    var m1 := Touch(mask, m, k);
    var m2 := if incremental then RaiseAll(m1, row) else m1;
    var b := m2[p].val + [row];
    SetValue(m2, p, if incremental then StableSort(b) else b)
  }

  function IndexOf(b: Bucket, x: nat): (i: nat)
    requires x in b
    ensures i < |b| && b[i] == x
  {
    if b[0] == x then 0 else 1 + IndexOf(b[1..], x)
  }

  function Without(b: Bucket, x: nat): Bucket
    requires x in b
  {
    b[..IndexOf(b, x)] + b[IndexOf(b, x) + 1..]
  }

  /** The assertions in `NotifyRowDelete`: the row is found under its key. */
  predicate Present(mask: seq<int>, m: IndexMap, k: Key, row: nat)
    requires Ascending(mask, m) && StoredKey(mask, k)
  {
    var p := LowerBound(mask, m, k);
    Find(mask, m, k).Some? && p < |m| && row in m[p].val
  }

  /** The first half of `NotifyRowDelete`: the row leaves its bucket, an empty bucket leaves the map. */
  function Unlink(mask: seq<int>, m: IndexMap, k: Key, row: nat): IndexMap
    requires Ascending(mask, m) && StoredKey(mask, k) && Present(mask, m, k, row)
  {
    var p := LowerBound(mask, m, k);
    var b := Without(m[p].val, row);
    if b == [] then EraseAt(m, p) else SetValue(m, p, b)
  }

  /** `TableIndex::NotifyRowDelete` */
  function NotifyDelete(mask: seq<int>, m: IndexMap, k: Key, row: nat, incremental: bool): IndexMap
    requires Ascending(mask, m) && StoredKey(mask, k) && Present(mask, m, k, row)
  {
    var m1 := Unlink(mask, m, k, row);
    if incremental then LowerAll(m1, row) else m1
  }

  /** `TableIndex::BuildIndex`: every row is pushed to the bucket of its key. */
  function Build(mask: seq<int>, ks: seq<Key>): (m: IndexMap)
    requires forall x :: 0 <= x < |ks| ==> StoredKey(mask, ks[x])
    ensures Ascending(mask, m)
  {
    if ks == [] then []
    else
      var n := |ks| - 1;
      var m0 := Build(mask, ks[..n]);
      InsertNotified(mask, m0, ks[n], n);
      NotifyInsert(mask, m0, ks[n], n, false)
  }

  // Agreement of an index with the rows

  ghost function BucketOf(m: IndexMap, k: Key): Bucket {
    match Lookup(m, k)
    case Some(b) => b
    case None => []
  }

  /** Bucket `b` lists the rows with key `k`, each once. */
  ghost predicate Holds(b: Bucket, rk: RowKeys, k: Key) {
    Distinct(b) && forall x: nat :: x in b <==> x in rk && rk[x] == k
  }

  predicate NoEmptyBucket(m: IndexMap) {
    forall i :: 0 <= i < |m| ==> m[i].val != []
  }

  predicate AllSorted(m: IndexMap) {
    forall i :: 0 <= i < |m| ==> Sorted(m[i].val)
  }

  /** The index agrees with the rows: as sets of rows per key, with no bucket empty. */
  ghost predicate Agrees(mask: seq<int>, m: IndexMap, rk: RowKeys) {
    && Ascending(mask, m)
    && NoEmptyBucket(m)
    && forall k :: Holds(BucketOf(m, k), rk, k)
  }

  function KeysOf(ks: seq<Key>): RowKeys {
    map x: nat | 0 <= x < |ks| :: ks[x]
  }

  // One notification

  lemma InsertNotified(mask: seq<int>, m: IndexMap, k: Key, row: nat)
    requires Ascending(mask, m) && StoredKey(mask, k)
    ensures
      var m' := NotifyInsert(mask, m, k, row, false);
      && Ascending(mask, m') && (NoEmptyBucket(m) ==> NoEmptyBucket(m'))
      && (forall k' :: BucketOf(m', k') == if k' == k then BucketOf(m, k) + [row] else BucketOf(m, k'))
  {
    hide LexLess, KeyTyped;
    var p := LowerBound(mask, m, k);
    var m1 := Touch(mask, m, k);
    FindLookup(mask, m, k);
    if Find(mask, m, k).None? {
      LookupInsert(mask, m, k, []);
    }
    LookupAt(mask, m1, p);
    LookupSet(mask, m1, p, m1[p].val + [row]);
  }

  lemma LookupSet(mask: seq<int>, m: IndexMap, p: nat, b: Bucket)
    requires Ascending(mask, m) && p < |m|
    ensures Ascending(mask, SetValue(m, p, b))
    ensures forall k' :: Lookup(SetValue(m, p, b), k') == if k' == m[p].key then Some(b) else Lookup(m, k')
  {
    hide LexLess, KeyTyped;
    var m' := SetValue(m, p, b);
    LookupSameKeys(mask, m, m');
    forall k' | k' != m[p].key && k' in Keys(m)
      ensures Lookup(m', k') == Lookup(m, k')
    {
      var i :| 0 <= i < |m| && m[i].key == k';
      assert m'[i] == m[i];
    }
  }

  lemma Unlinked(mask: seq<int>, m: IndexMap, k: Key, row: nat)
    requires Ascending(mask, m) && StoredKey(mask, k) && Present(mask, m, k, row)
    ensures row in BucketOf(m, k)
    ensures
      var m' := Unlink(mask, m, k, row);
      && Ascending(mask, m') && (NoEmptyBucket(m) ==> NoEmptyBucket(m'))
      && (forall k' :: BucketOf(m', k') == if k' == k then Without(BucketOf(m, k), row) else BucketOf(m, k'))
  {
    hide LexLess, KeyTyped;
    var p := LowerBound(mask, m, k);
    FindLookup(mask, m, k);
    var b := Without(m[p].val, row);
    if b == [] {
      LookupErase(mask, m, p);
    } else {
      LookupSet(mask, m, p, b);
    }
  }

  lemma WithoutSpec(b: Bucket, x: nat)
    requires x in b && Distinct(b)
    ensures Distinct(Without(b, x))
    ensures forall y :: y in Without(b, x) <==> y in b && y != x
    ensures Sorted(b) ==> Sorted(Without(b, x))
  {
    var i := IndexOf(b, x);
    forall j | 0 <= j < |b| && j != i
      ensures b[j] in Without(b, x) && b[j] != x
    {
      assert Without(b, x)[if j < i then j else j - 1] == b[j];
    }
  }

  /** Rows that agree are found by `NotifyRowDelete`. */
  lemma AgreeingPresent(mask: seq<int>, m: IndexMap, rk: RowKeys, row: nat)
    requires Agrees(mask, m, rk) && row in rk && StoredKey(mask, rk[row])
    ensures Present(mask, m, rk[row], row)
  {
    FindLookup(mask, m, rk[row]);
    assert Holds(BucketOf(m, rk[row]), rk, rk[row]);
  }

  /** A plain insertion adds one row to what the index agrees with. */
  lemma InsertAgrees(mask: seq<int>, m: IndexMap, rk: RowKeys, k: Key, row: nat)
    requires Agrees(mask, m, rk) && StoredKey(mask, k) && row !in rk
    ensures Agrees(mask, NotifyInsert(mask, m, k, row, false), rk[row := k])
  {
    hide LexLess, KeyTyped, NotifyInsert;
    InsertNotified(mask, m, k, row);
    var m' := NotifyInsert(mask, m, k, row, false);
    forall k'
      ensures Holds(BucketOf(m', k'), rk[row := k], k')
    {
      assert Holds(BucketOf(m, k'), rk, k');
    }
  }

  /** Unlinking removes one row from what the index agrees with. */
  lemma UnlinkAgrees(mask: seq<int>, m: IndexMap, rk: RowKeys, row: nat)
    requires Agrees(mask, m, rk) && row in rk && StoredKey(mask, rk[row])
    ensures Present(mask, m, rk[row], row)
    ensures Agrees(mask, Unlink(mask, m, rk[row], row), rk - {row})
  {
    hide LexLess, KeyTyped, Unlink, Without;
    AgreeingPresent(mask, m, rk, row);
    Unlinked(mask, m, rk[row], row);
    var m' := Unlink(mask, m, rk[row], row);
    forall k'
      ensures Holds(BucketOf(m', k'), rk - {row}, k')
    {
      assert Holds(BucketOf(m, k'), rk, k');
      if k' == rk[row] {
        WithoutSpec(BucketOf(m, k'), row);
      }
    }
  }

  // Renumbering

  /** Bisection finds the right place in every bucket. */
  predicate AllSplit(m: IndexMap, row: nat) {
    forall i :: 0 <= i < |m| ==> Splits(m[i].val, row)
  }

  predicate InRange(rk: RowKeys) {
    forall x :: x in rk ==> x < SIZE_T_COUNT
  }

  /** The row keys once the rows from `row` on have moved up by one. */
  function RaiseKeys(rk: RowKeys, row: nat): RowKeys {
    map y | y in (set x | x in rk :: if x >= row then x + 1 else x) :: rk[BeforeInsert(y, row)]
  }

  /** The row keys once the rows after the deleted `row` have moved down by one. */
  function LowerKeys(rk: RowKeys, row: nat): RowKeys
    requires row !in rk
  {
    map y | y in (set x | x in rk :: if x > row then x - 1 else x) :: rk[BeforeDelete(y, row)]
  }

  lemma RaiseKeysSpec(rk: RowKeys, row: nat)
    ensures forall y: nat :: y in RaiseKeys(rk, row) <==> y != row && BeforeInsert(y, row) in rk
  {
    forall y: nat | y != row && BeforeInsert(y, row) in rk
      ensures y in RaiseKeys(rk, row)
    {
      var x := BeforeInsert(y, row);
      assert y == if x >= row then x + 1 else x;
    }
  }

  lemma LowerKeysSpec(rk: RowKeys, row: nat)
    requires row !in rk
    ensures forall y: nat :: y in LowerKeys(rk, row) <==> BeforeDelete(y, row) in rk
  {
    forall y: nat | BeforeDelete(y, row) in rk
      ensures y in LowerKeys(rk, row)
    {
      var x := BeforeDelete(y, row);
      assert y == if x > row then x - 1 else x;
    }
  }

  lemma BucketsRaised(mask: seq<int>, m: IndexMap, row: nat)
    requires Ascending(mask, m)
    ensures Ascending(mask, RaiseAll(m, row)) && (NoEmptyBucket(m) ==> NoEmptyBucket(RaiseAll(m, row)))
    ensures forall k :: BucketOf(RaiseAll(m, row), k) == Raise(BucketOf(m, k), row)
  {
    hide LexLess, KeyTyped;
    var m' := RaiseAll(m, row);
    LookupSameKeys(mask, m, m');
    forall k
      ensures BucketOf(m', k) == Raise(BucketOf(m, k), row)
    {
      if k in Keys(m) {
        var i :| 0 <= i < |m| && m[i].key == k;
        assert m'[i].val == Raise(m[i].val, row);
      }
    }
  }

  lemma BucketsLowered(mask: seq<int>, m: IndexMap, row: nat)
    requires Ascending(mask, m)
    ensures Ascending(mask, LowerAll(m, row)) && (NoEmptyBucket(m) ==> NoEmptyBucket(LowerAll(m, row)))
    ensures forall k :: BucketOf(LowerAll(m, row), k) == Lower(BucketOf(m, k), row)
  {
    hide LexLess, KeyTyped;
    var m' := LowerAll(m, row);
    LookupSameKeys(mask, m, m');
    forall k
      ensures BucketOf(m', k) == Lower(BucketOf(m, k), row)
    {
      if k in Keys(m) {
        var i :| 0 <= i < |m| && m[i].key == k;
        assert m'[i].val == Lower(m[i].val, row);
      }
    }
  }

  /** Splitting can be asked entry by entry or key by key. */
  lemma AllSplitByKey(mask: seq<int>, m: IndexMap, row: nat)
    requires Ascending(mask, m)
    ensures AllSplit(m, row) <==> forall k :: Splits(BucketOf(m, k), row)
  {
    hide LexLess, KeyTyped, Splits;
    assert Splits([], row) by { SortedSplits([], row); }
    forall i | 0 <= i < |m|
      ensures BucketOf(m, m[i].key) == m[i].val
    {
      LookupAt(mask, m, i);
    }
    forall k
      ensures BucketOf(m, k) == [] || exists i :: 0 <= i < |m| && m[i].key == k
    {
    }
  }

  /** Sortedness can be asked entry by entry or key by key. */
  lemma AllSortedByKey(mask: seq<int>, m: IndexMap)
    requires Ascending(mask, m)
    ensures AllSorted(m) <==> forall k :: Sorted(BucketOf(m, k))
  {
    hide LexLess, KeyTyped;
    forall i | 0 <= i < |m|
      ensures BucketOf(m, m[i].key) == m[i].val
    {
      LookupAt(mask, m, i);
    }
    forall k
      ensures BucketOf(m, k) == [] || exists i :: 0 <= i < |m| && m[i].key == k
    {
    }
  }

  lemma SortedAllSplit(m: IndexMap, row: nat)
    requires AllSorted(m)
    ensures AllSplit(m, row)
  {
    forall i | 0 <= i < |m|
      ensures Splits(m[i].val, row)
    {
      SortedSplits(m[i].val, row);
    }
  }

  /** An incremental insertion raises every bucket, then pushes and sorts one of them. */
  lemma InsertRaised(mask: seq<int>, m: IndexMap, k: Key, row: nat)
    requires Ascending(mask, m) && StoredKey(mask, k)
    ensures
      var m' := NotifyInsert(mask, m, k, row, true);
      && Ascending(mask, m') && (NoEmptyBucket(m) ==> NoEmptyBucket(m'))
      && (forall k' :: BucketOf(m', k') ==
                       if k' == k then StableSort(Raise(BucketOf(m, k), row) + [row]) else Raise(BucketOf(m, k'), row))
  {
    hide LexLess, KeyTyped, Raise, StableSort;
    var p := LowerBound(mask, m, k);
    var m1 := Touch(mask, m, k);
    FindLookup(mask, m, k);
    if Find(mask, m, k).None? {
      LookupInsert(mask, m, k, []);
    }
    LookupAt(mask, m1, p);
    BucketsRaised(mask, m1, row);
    var m2 := RaiseAll(m1, row);
    assert forall k' :: BucketOf(m1, k') == BucketOf(m, k');
    assert m2[p].key == k;
    hide Touch, RaiseAll, Find, NotifyInsert;
    SortedIn(mask, m2, p, row);
  }

  /** Adding a row to the bucket of entry `p` and sorting it. */
  lemma SortedIn(mask: seq<int>, m: IndexMap, p: nat, row: nat)
    requires Ascending(mask, m) && p < |m|
    ensures
      var m' := SetValue(m, p, StableSort(m[p].val + [row]));
      && Ascending(mask, m') && (NoEmptyBucketBut(m, p) ==> NoEmptyBucket(m'))
      && (forall k :: BucketOf(m', k) ==
                      if k == m[p].key then StableSort(BucketOf(m, k) + [row]) else BucketOf(m, k))
  {
    hide LexLess, KeyTyped, StableSort;
    var b := StableSort(m[p].val + [row]);
    LookupAt(mask, m, p);
    LookupSet(mask, m, p, b);
    StableSortSpec(m[p].val + [row]);
    assert row in multiset(b);
  }

  predicate NoEmptyBucketBut(m: IndexMap, p: nat) {
    forall i :: 0 <= i < |m| && i != p ==> m[i].val != []
  }

  /**
   * Inserting a row: the index still agrees if and only if bisection finds the right place in every bucket.
   * Sorted buckets qualify, and stay sorted.
   */
  lemma InsertRowExact(mask: seq<int>, m: IndexMap, rk: RowKeys, k: Key, row: nat)
    requires Agrees(mask, m, rk) && StoredKey(mask, k)
    ensures Agrees(mask, NotifyInsert(mask, m, k, row, true), RaiseKeys(rk, row)[row := k]) <==> AllSplit(m, row)
    ensures AllSorted(m) ==> AllSorted(NotifyInsert(mask, m, k, row, true))
  {
    hide LexLess, KeyTyped, NotifyInsert, Raise, StableSort, Splits, Holds;
    var m' := NotifyInsert(mask, m, k, row, true);
    InsertRaised(mask, m, k, row);
    AllSplitByKey(mask, m, row);
    AllSortedByKey(mask, m);
    AllSortedByKey(mask, m');
    forall k'
      ensures Holds(BucketOf(m', k'), RaiseKeys(rk, row)[row := k], k') <==> Splits(BucketOf(m, k'), row)
      ensures Sorted(BucketOf(m, k')) ==> Sorted(BucketOf(m', k'))
    {
      assert Holds(BucketOf(m, k'), rk, k');
      RaisedBucket(BucketOf(m, k'), rk, k', k, row);
    }
  }

  lemma RaisedBucket(b: Bucket, rk: RowKeys, key: Key, k: Key, row: nat)
    requires Holds(b, rk, key)
    ensures
      var b' := if key == k then StableSort(Raise(b, row) + [row]) else Raise(b, row);
      && (Holds(b', RaiseKeys(rk, row)[row := k], key) <==> Splits(b, row))
      && (Sorted(b) ==> Sorted(b'))
  {
    hide Splits, StableSort, Raise, RaiseKeys;
    var r := Raise(b, row);
    RaiseExact(b, row);
    RaiseKeysSpec(rk, row);
    RaisedKey(rk, row);
    if Sorted(b) {
      RaiseSorted(b, row);
    }
    var rk' := RaiseKeys(rk, row)[row := k];
    forall y: nat
      ensures (y in rk' && rk'[y] == key) <==> if y == row then key == k else BeforeInsert(y, row) in b
    {
      if y != row && BeforeInsert(y, row) in rk {
        assert rk'[y] == rk[BeforeInsert(y, row)];
      }
    }
    if key == k {
      SortedSameRows(r + [row]);
      SnocDistinct(r, row);
    }
  }

  lemma SnocDistinct(b: Bucket, row: nat)
    ensures Distinct(b + [row]) <==> Distinct(b) && row !in b
    ensures forall y :: y in b + [row] <==> y in b || y == row
  {
    assert forall i :: 0 <= i < |b| ==> (b + [row])[i] == b[i];
    assert (b + [row])[|b|] == row;
  }

  lemma RaisedKey(rk: RowKeys, row: nat)
    ensures forall y: nat :: y != row && BeforeInsert(y, row) in rk ==>
              y in RaiseKeys(rk, row) && RaiseKeys(rk, row)[y] == rk[BeforeInsert(y, row)]
  {
    RaiseKeysSpec(rk, row);
  }

  lemma RaiseSorted(b: Bucket, row: nat)
    requires Sorted(b)
    ensures Splits(b, row) && Sorted(Raise(b, row)) && row !in Raise(b, row)
  {
    SortedSplits(b, row);
  }

  /**
   * Deleting a row: after unlinking it, the lowered index agrees if and only if bisection finds the right place in
   * every bucket.
   */
  lemma LowerRowExact(mask: seq<int>, m: IndexMap, rk: RowKeys, row: nat)
    requires Agrees(mask, m, rk) && row !in rk && row < SIZE_T_COUNT && InRange(rk)
    ensures Agrees(mask, LowerAll(m, row), LowerKeys(rk, row)) <==> AllSplit(m, row)
    ensures AllSorted(m) ==> AllSorted(LowerAll(m, row))
  {
    hide LexLess, KeyTyped, Lower, Splits, Holds, LowerAll;
    var m' := LowerAll(m, row);
    BucketsLowered(mask, m, row);
    AllSplitByKey(mask, m, row);
    AllSortedByKey(mask, m);
    AllSortedByKey(mask, m');
    forall k
      ensures Holds(BucketOf(m', k), LowerKeys(rk, row), k) <==> Splits(BucketOf(m, k), row)
      ensures Sorted(BucketOf(m, k)) ==> Sorted(BucketOf(m', k))
    {
      assert Holds(BucketOf(m, k), rk, k);
      LoweredBucket(BucketOf(m, k), rk, k, row);
    }
  }

  lemma LoweredBucket(b: Bucket, rk: RowKeys, k: Key, row: nat)
    requires Holds(b, rk, k) && row !in rk && row < SIZE_T_COUNT && InRange(rk)
    ensures Holds(Lower(b, row), LowerKeys(rk, row), k) <==> Splits(b, row)
    ensures Sorted(b) ==> Sorted(Lower(b, row))
  {
    hide LowerKeys;
    assert forall i :: 0 <= i < |b| ==> b[i] in b;
    assert row !in b;
    LowerExact(b, row);
    LowerKeysSpec(rk, row);
    LoweredKey(rk, row);
    hide LowerBoundOf;
    if Sorted(b) {
      LowerSorted(b, row);
    }
  }

  lemma LowerSorted(b: Bucket, row: nat)
    requires Sorted(b) && row !in b
    ensures Splits(b, row) && Sorted(Lower(b, row))
  {
    SortedSplits(b, row);
    hide LowerBoundOf;
    forall i | LowerBoundOf(b, row) <= i < |b|
      ensures b[i] > row
    {
      assert b[i] in b;
    }
  }

  lemma LoweredKey(rk: RowKeys, row: nat)
    requires row !in rk
    ensures forall y: nat :: BeforeDelete(y, row) in rk ==>
              y in LowerKeys(rk, row) && LowerKeys(rk, row)[y] == rk[BeforeDelete(y, row)]
  {
    LowerKeysSpec(rk, row);
  }

  /** Unlinking keeps buckets sorted. */
  lemma UnlinkSorted(mask: seq<int>, m: IndexMap, rk: RowKeys, row: nat)
    requires Agrees(mask, m, rk) && row in rk && StoredKey(mask, rk[row]) && AllSorted(m)
    ensures Present(mask, m, rk[row], row) && AllSorted(Unlink(mask, m, rk[row], row))
  {
    hide LexLess, KeyTyped, Unlink, Without;
    UnlinkAgrees(mask, m, rk, row);
    Unlinked(mask, m, rk[row], row);
    AllSortedByKey(mask, m);
    AllSortedByKey(mask, Unlink(mask, m, rk[row], row));
    assert Holds(BucketOf(m, rk[row]), rk, rk[row]);
    WithoutSpec(BucketOf(m, rk[row]), row);
  }

  /** A plain insertion keeps buckets sorted exactly when the new row number exceeds the others in its bucket. */
  lemma InsertSortedExact(mask: seq<int>, m: IndexMap, k: Key, row: nat)
    requires Ascending(mask, m) && StoredKey(mask, k) && AllSorted(m)
    ensures Ascending(mask, NotifyInsert(mask, m, k, row, false))
    ensures AllSorted(NotifyInsert(mask, m, k, row, false)) <==> forall y :: y in BucketOf(m, k) ==> y < row
  {
    hide LexLess, KeyTyped, NotifyInsert;
    var m' := NotifyInsert(mask, m, k, row, false);
    InsertNotified(mask, m, k, row);
    AllSortedByKey(mask, m);
    AllSortedByKey(mask, m');
    var b := BucketOf(m, k);
    SnocSorted(b, row);
  }

  lemma SnocSorted(b: Bucket, row: nat)
    requires Sorted(b)
    ensures Sorted(b + [row]) <==> forall y :: y in b ==> y < row
  {
    assert forall i :: 0 <= i < |b| ==> b[i] in b && (b + [row])[i] == b[i];
    assert (b + [row])[|b|] == row;
  }

  // Uniqueness

  /** An agreeing index with sorted buckets is unique: it is the one `BuildIndex` makes. */
  lemma AgreeingUnique(mask: seq<int>, m1: IndexMap, m2: IndexMap, rk: RowKeys)
    requires Agrees(mask, m1, rk) && Agrees(mask, m2, rk) && AllSorted(m1) && AllSorted(m2)
    ensures m1 == m2
  {
    hide LexLess, KeyTyped;
    AllSortedByKey(mask, m1);
    AllSortedByKey(mask, m2);
    forall k
      ensures Lookup(m1, k) == Lookup(m2, k)
    {
      assert Holds(BucketOf(m1, k), rk, k) && Holds(BucketOf(m2, k), rk, k);
      SortedUnique(BucketOf(m1, k), BucketOf(m2, k));
      LookupNonEmpty(mask, m1, k);
      LookupNonEmpty(mask, m2, k);
    }
    SameLookups(mask, m1, m2);
  }

  lemma LookupNonEmpty(mask: seq<int>, m: IndexMap, k: Key)
    requires Ascending(mask, m) && NoEmptyBucket(m)
    ensures Lookup(m, k) == if BucketOf(m, k) == [] then None else Some(BucketOf(m, k))
  {
  }

  lemma {:induction false} BuildAgrees(mask: seq<int>, ks: seq<Key>)
    requires forall x :: 0 <= x < |ks| ==> StoredKey(mask, ks[x])
    ensures Agrees(mask, Build(mask, ks), KeysOf(ks)) && AllSorted(Build(mask, ks))
  {
    hide LexLess, KeyTyped, NotifyInsert;
    if ks != [] {
      var n := |ks| - 1;
      var m0 := Build(mask, ks[..n]);
      BuildAgrees(mask, ks[..n]);
      InsertAgrees(mask, m0, KeysOf(ks[..n]), ks[n], n);
      InsertSortedExact(mask, m0, ks[n], n);
      assert Holds(BucketOf(m0, ks[n]), KeysOf(ks[..n]), ks[n]);
      assert KeysOf(ks) == KeysOf(ks[..n])[n := ks[n]];
    }
  }

  /** The index that agrees with the rows and has sorted buckets is the one built from scratch. */
  lemma BuildUnique(mask: seq<int>, m: IndexMap, ks: seq<Key>)
    requires forall x :: 0 <= x < |ks| ==> StoredKey(mask, ks[x])
    ensures Agrees(mask, m, KeysOf(ks)) && AllSorted(m) <==> m == Build(mask, ks)
  {
    BuildAgrees(mask, ks);
    if Agrees(mask, m, KeysOf(ks)) && AllSorted(m) {
      AgreeingUnique(mask, m, Build(mask, ks), KeysOf(ks));
    }
  }
}
