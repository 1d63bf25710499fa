/** What a walk over an index sees, entry after entry and row after row. */
module Walks {
  import opened Types
  import opened KeyOrder
  import opened OrderedMap
  import opened Buckets
  import opened IndexSpec
  import opened TableSpec
  import opened TableRuns
  import opened CellOrder

  /** The row numbers from entry `p` on, bucket after bucket. */
  function Flatten(m: IndexMap, p: nat): seq<nat>
    requires p <= |m|
    decreases |m| - p
  {
    if p == |m| then [] else m[p].val + Flatten(m, p + 1)
  }

  /** The rows behind row `r` of entry `p`. */
  lemma NextRow(m: IndexMap, p: nat, r: nat)
    requires NoEmptyBucket(m) && p < |m| && r < |m[p].val|
    ensures (m[p].val[r..] + Flatten(m, p + 1))[1..] == m[p].val[r+1..] + Flatten(m, p + 1)
    ensures r + 1 == |m[p].val| ==> m[p].val[r+1..] == []
    ensures Flatten(m, p + 1) == if p + 1 == |m| then [] else m[p+1].val[0..] + Flatten(m, p + 2)
  {
    assert p + 1 < |m| ==> m[p+1].val[0..] == m[p+1].val;
  }

  lemma FlattenNonEmpty(m: IndexMap, p: nat)
    requires NoEmptyBucket(m) && p < |m|
    ensures Flatten(m, p) != []
  {
  }

  /** Without an equal key, both bounds are the same position. */
  lemma BoundsMeet(mask: seq<int>, m: IndexMap, k: Key)
    requires Ascending(mask, m) && KeyTyped(mask, k)
    ensures Find(mask, m, k).None? ==> LowerBound(mask, m, k) == UpperBound(mask, m, k)
  {
    hide LexLess, KeyTyped;
    BoundsSplit(mask, m, k);
    var p, q := LowerBound(mask, m, k), UpperBound(mask, m, k);
    if Find(mask, m, k).None? {
      if q < p {
        LexTotal(mask, m[q].key, k);
      }
    }
  }

  // What the walks see

  /** Row `x` comes before row `y`: by key, and by row number among equal keys. */
  predicate Before(mask: seq<int>, ks: seq<Key>, x: nat, y: nat)
    requires x < |ks| && y < |ks| && forall z :: 0 <= z < |ks| ==> StoredKey(mask, ks[z])
  {
    assert StoredKey(mask, ks[x]) && StoredKey(mask, ks[y]);
    LexLess(mask, ks[x], ks[y]) || (ks[x] == ks[y] && x < y)
  }

  /** Rows in key order, rows with equal keys in row order. */
  predicate StableOrder(mask: seq<int>, ks: seq<Key>, out: seq<nat>)
    requires forall z :: 0 <= z < |ks| ==> StoredKey(mask, ks[z])
  {
    && (forall i :: 0 <= i < |out| ==> out[i] < |ks|)
    && (forall i, j :: 0 <= i < j < |out| ==> Before(mask, ks, out[i], out[j]))
  }

  lemma StableConcat(mask: seq<int>, ks: seq<Key>, a: seq<nat>, b: seq<nat>)
    requires forall z :: 0 <= z < |ks| ==> StoredKey(mask, ks[z])
    requires StableOrder(mask, ks, a) && StableOrder(mask, ks, b)
    requires forall x, y :: x in a && y in b ==> x < |ks| && y < |ks| && Before(mask, ks, x, y)
    ensures StableOrder(mask, ks, a + b)
  {
    hide Before, StoredKey;
    forall i, j | 0 <= i < j < |a + b|
      ensures Before(mask, ks, (a + b)[i], (a + b)[j])
    {
      if i < |a| && |a| <= j {
        assert a[i] in a && b[j - |a|] in b;
      }
    }
  }

  /** Each bucket of an agreeing index with sorted buckets. */
  lemma BucketRows(mask: seq<int>, m: IndexMap, ks: seq<Key>, p: nat)
    requires Agrees(mask, m, KeysOf(ks)) && AllSorted(m) && p < |m|
    requires forall z :: 0 <= z < |ks| ==> StoredKey(mask, ks[z])
    ensures forall x: nat :: x in m[p].val <==> x < |ks| && ks[x] == m[p].key
    ensures StableOrder(mask, ks, m[p].val)
  {
    hide LexLess, KeyTyped;
    LookupAt(mask, m, p);
    assert Holds(BucketOf(m, m[p].key), KeysOf(ks), m[p].key);
    var b := m[p].val;
    forall i | 0 <= i < |b|
      ensures b[i] < |ks| && ks[b[i]] == m[p].key
    {
      assert b[i] in b;
    }
  }

  /** The rows from entry `p` on are exactly those whose key sits there, in stable key order. */
  lemma {:induction false} FlattenRows(mask: seq<int>, m: IndexMap, ks: seq<Key>, p: nat)
    requires Agrees(mask, m, KeysOf(ks)) && AllSorted(m) && p <= |m|
    requires forall z :: 0 <= z < |ks| ==> StoredKey(mask, ks[z])
    ensures forall x: nat :: x in Flatten(m, p) <==> x < |ks| && exists q :: p <= q < |m| && m[q].key == ks[x]
    ensures StableOrder(mask, ks, Flatten(m, p))
    decreases |m| - p
  {
    hide LexLess, KeyTyped, AllSorted;
    if p < |m| {
      BucketRows(mask, m, ks, p);
      FlattenRows(mask, m, ks, p + 1);
      forall x, y | x in m[p].val && y in Flatten(m, p + 1)
        ensures x < |ks| && y < |ks| && Before(mask, ks, x, y)
      {
        var q :| p + 1 <= q < |m| && m[q].key == ks[y];
        assert LexLess(mask, m[p].key, m[q].key);
      }
      StableConcat(mask, ks, m[p].val, Flatten(m, p + 1));
    }
  }

  lemma StableDistinct(mask: seq<int>, ks: seq<Key>, out: seq<nat>)
    requires (forall z :: 0 <= z < |ks| ==> StoredKey(mask, ks[z])) && StableOrder(mask, ks, out)
    ensures Distinct(out)
  {
    hide LexLess, KeyTyped;
    forall i, j | 0 <= i < j < |out|
      ensures out[i] != out[j]
    {
      assert Before(mask, ks, out[i], out[j]);
      LexTotal(mask, ks[out[i]], ks[out[i]]);
    }
  }

  function Iota(n: nat): seq<nat> {
    seq(n, i requires 0 <= i < n => i)
  }

  /**
   * Walking an exact index from `begin()` to `end()` is the stable sort of the table: every row exactly once, in key
   * order with ties by row number.
   */
  lemma WalkIsStableSort(s: State, i: nat)
    requires WellFormed(s) && Exact(s) && i < |s.indexes|
    ensures
      var idx := s.indexes[i];
      var ks := KeysOfRows(s.columns, s.rows, idx.cols, idx.mask);
      var out := Flatten(idx.entries, 0);
      && StableOrder(idx.mask, ks, out)
      && multiset(out) == multiset(Iota(|s.rows|))
  {
    hide LexLess, KeyTyped, Agrees, AllSorted;
    ExactIsSortedAgreement(s);
    var idx := s.indexes[i];
    assert IndexAgrees(s.columns, s.rows, idx) && AllSorted(idx.entries);
    var ks := KeysOfRows(s.columns, s.rows, idx.cols, idx.mask);
    var out := Flatten(idx.entries, 0);
    FlattenRows(idx.mask, idx.entries, ks, 0);
    StableDistinct(idx.mask, ks, out);
    forall x: nat
      ensures x in out <==> x < |s.rows|
    {
      if x < |s.rows| {
        ExactCovers(s, i, x);
        var p :| 0 <= p < |idx.entries| && x in idx.entries[p].val;
        ExactBuckets(s, i, p);
      }
    }
    IotaMembers(|s.rows|);
    SameMembers(out, Iota(|s.rows|));
  }

  lemma IotaMembers(n: nat)
    ensures Distinct(Iota(n)) && forall x: nat :: x in Iota(n) <==> x < n
  {
    forall x: nat | x < n
      ensures x in Iota(n)
    {
      assert Iota(n)[x] == x;
    }
  }

  lemma SameMembers(a: seq<nat>, b: seq<nat>)
    requires Distinct(a) && Distinct(b) && forall x: nat :: x in a <==> x in b
    ensures multiset(a) == multiset(b)
  {
    DistinctMultiset(a);
    DistinctMultiset(b);
    forall x
      ensures multiset(a)[x] == multiset(b)[x]
    {
      assert x in a <==> x in multiset(a);
      assert x in b <==> x in multiset(b);
    }
  }

  /**
   * A walk that starts at a lower bound sees exactly the rows whose key is not less than the argument; one that starts
   * at an upper bound, exactly those whose key is greater. Both are in stable key order.
   */
  lemma BoundedWalk(s: State, i: nat, k: Key)
    requires WellFormed(s) && Exact(s) && i < |s.indexes| && KeyTyped(s.indexes[i].mask, k)
    ensures
      var idx := s.indexes[i];
      var ks := KeysOfRows(s.columns, s.rows, idx.cols, idx.mask);
      var lower := Flatten(idx.entries, LowerBound(idx.mask, idx.entries, k));
      var upper := Flatten(idx.entries, UpperBound(idx.mask, idx.entries, k));
      && (forall x: nat :: x in lower <==> x < |s.rows| && !LexLess(idx.mask, ks[x], k))
      && (forall x: nat :: x in upper <==> x < |s.rows| && LexLess(idx.mask, k, ks[x]))
      && StableOrder(idx.mask, ks, lower) && StableOrder(idx.mask, ks, upper)
  {
    hide LexLess, KeyTyped, Agrees, AllSorted;
    ExactIsSortedAgreement(s);
    var idx := s.indexes[i];
    assert IndexAgrees(s.columns, s.rows, idx) && AllSorted(idx.entries);
    var m, ks := idx.entries, KeysOfRows(s.columns, s.rows, idx.cols, idx.mask);
    var p, q := LowerBound(idx.mask, m, k), UpperBound(idx.mask, m, k);
    FlattenRows(idx.mask, m, ks, p);
    FlattenRows(idx.mask, m, ks, q);
    BoundsSplit(idx.mask, m, k);
    forall x: nat | x < |ks|
      ensures exists e :: 0 <= e < |m| && m[e].key == ks[x]
    {
      ExactCovers(s, i, x);
      var e :| 0 <= e < |m| && x in m[e].val;
      ExactBuckets(s, i, e);
    }
  }

  /**
   * `GetLowerOrEqual`, which starts at the lower bound, walks the rows that are not greater than the key if and only if
   * every row has exactly that key.
   */
  lemma LowerOrEqualExact(s: State, i: nat, k: Key)
    requires WellFormed(s) && Exact(s) && i < |s.indexes| && KeyTyped(s.indexes[i].mask, k)
    ensures
      var idx := s.indexes[i];
      var ks := KeysOfRows(s.columns, s.rows, idx.cols, idx.mask);
      var walked := Flatten(idx.entries, LowerBound(idx.mask, idx.entries, k));
      (forall x: nat :: x in walked <==> x < |s.rows| && !LexLess(idx.mask, k, ks[x]))
      <==> forall x :: 0 <= x < |s.rows| ==> ks[x] == k[..|idx.mask|]
  {
    hide LexLess, Exact;
    BoundedWalk(s, i, k);
    var idx := s.indexes[i];
    var ks := KeysOfRows(s.columns, s.rows, idx.cols, idx.mask);
    var walked := Flatten(idx.entries, LowerBound(idx.mask, idx.entries, k));
    forall x | 0 <= x < |s.rows|
      ensures !(LexLess(idx.mask, ks[x], k) && LexLess(idx.mask, k, ks[x]))
      ensures LexLess(idx.mask, ks[x], k) || ks[x] == k[..|idx.mask|] || LexLess(idx.mask, k, ks[x])
      ensures ks[x] == k[..|idx.mask|] ==> !LexLess(idx.mask, ks[x], k) && !LexLess(idx.mask, k, ks[x])
    {
      assert StoredKey(idx.mask, ks[x]);
      assert ks[x][..|idx.mask|] == ks[x];
      LexTotal(idx.mask, ks[x], k);
      LexTotal(idx.mask, k, ks[x]);
    }
  }

  /** In a table of the two rows 1 and 2, the walk from `GetLowerOrEqual` of 2 misses row 0. */
  lemma LowerOrEqualMisses()
    ensures WellFormed(TWO_ROWS) && OpOk(TWO_ROWS, INDEX)
    ensures
      var s := Step(TWO_ROWS, INDEX);
      && |s.indexes| == 1
      && var idx := s.indexes[0];
         var k: Key := [KI(2)];
         && KeyTyped(idx.mask, k) && LexLess(idx.mask, KeyOf(s.rows[0], idx.cols), k)
         && 0 !in Flatten(idx.entries, LowerBound(idx.mask, idx.entries, k))
  {
    TwoRowsOk();
    var s := Step(TWO_ROWS, INDEX);
    var idx := s.indexes[0];
    var k: Key := [KI(2)];
    var ks := KeysOfRows(s.columns, s.rows, idx.cols, idx.mask);
    assert s.rows[0] == [I64(1)] && ks[0] == KeyOf(s.rows[0], idx.cols) == [KI(1)];
    assert ItemLess(idx.mask[0], ks[0][0], k[0]) && ks[0][..0] == k[..0];
    hide LexLess;
    BoundedWalk(s, 0, k);
  }

  /** `GetEqual` finds an entry if and only if some row has the key. */
  lemma EqualFound(s: State, i: nat, k: Key)
    requires WellFormed(s) && Exact(s) && i < |s.indexes| && KeyTyped(s.indexes[i].mask, k)
    ensures
      var idx := s.indexes[i];
      Find(idx.mask, idx.entries, k).Some? <==>
      exists x :: 0 <= x < |s.rows| && KeyOf(s.rows[x], idx.cols) == k[..|idx.mask|]
  {
    hide LexLess;
    var idx := s.indexes[i];
    var m := idx.entries;
    FindSpec(idx.mask, m, k);
    if Find(idx.mask, m, k).Some? {
      var p := Find(idx.mask, m, k).value;
      ExactBuckets(s, i, p);
      assert m[p].val[0] in m[p].val;
    }
    if x :| 0 <= x < |s.rows| && KeyOf(s.rows[x], idx.cols) == k[..|idx.mask|] {
      ExactCovers(s, i, x);
      var e :| 0 <= e < |m| && x in m[e].val;
      ExactBuckets(s, i, e);
      assert m[e].key in Keys(m);
    }
  }

  // On cells

  /** The walk over an exact index lists the rows by their cells in the indexed columns, in the signed order. */
  lemma WalkSorted(s: State, i: nat)
    requires WellFormed(s) && Exact(s) && i < |s.indexes|
    ensures
      var idx := s.indexes[i];
      |Signs(idx.mask)| == |idx.cols| && CellSorted(s.rows, idx.cols, Signs(idx.mask), Flatten(idx.entries, 0))
  {
    WalkIsStableSort(s, i);
    var idx := s.indexes[i];
    var ks := KeysOfRows(s.columns, s.rows, idx.cols, idx.mask);
    StableCells(s.columns, s.rows, idx.cols, idx.mask, Flatten(idx.entries, 0));
  }

  lemma StableCells(columns: seq<int>, rows: seq<Row>, cols: seq<nat>, mask: seq<int>, out: seq<nat>)
    requires Fits(columns, cols, mask) && RowsTyped(rows, columns)
    requires StableOrder(mask, KeysOfRows(columns, rows, cols, mask), out) && multiset(out) == multiset(Iota(|rows|))
    ensures |Signs(mask)| == |cols| && CellSorted(rows, cols, Signs(mask), out)
  {
    hide LexLess, KeyTyped, CellsBefore, SameCells;
    var ks := KeysOfRows(columns, rows, cols, mask);
    StableDistinct(mask, ks, out);
    assert |multiset(out)| == |out| && |multiset(Iota(|rows|))| == |rows|;
    assert forall x :: 0 <= x < |rows| ==> RowTyped(rows[x], columns);
    forall i, j | 0 <= i < j < |out|
      ensures
        var a, b := ItemsOf(rows[out[i]], cols), ItemsOf(rows[out[j]], cols);
        CellsBefore(Signs(mask), a, b) || (SameCells(a, b) && out[i] < out[j])
    {
      assert Before(mask, ks, out[i], out[j]);
      KeyBefore(cols, mask, rows[out[i]], rows[out[j]]);
      SameKey(cols, rows[out[i]], rows[out[j]]);
    }
  }

  /** The same for the index that is built from some rows. */
  lemma BuiltSorted(columns: seq<int>, rows: seq<Row>, cols: seq<nat>, mask: seq<int>)
    requires Fits(columns, cols, mask) && RowsTyped(rows, columns) && |rows| < SIZE_T_COUNT
    ensures |Signs(mask)| == |cols|
    ensures CellSorted(rows, cols, Signs(mask), Flatten(BuildIndex(columns, rows, cols, mask).entries, 0))
  {
    WalkSorted(State(columns, rows, [BuildIndex(columns, rows, cols, mask)], map[]), 0);
  }

  /**
   * Lookups by arguments: the walk from the lower bound sees the rows whose cells do not come before the arguments, the
   * walk from the upper bound those that the arguments come before, and an equal entry is found if and only if some row
   * has cells with the values of the arguments.
   */
  lemma LookupCells(s: State, i: nat, args: seq<Data>)
    requires WellFormed(s) && Exact(s) && i < |s.indexes| && KeyTyped(s.indexes[i].mask, KeyItems(args))
    ensures
      var idx := s.indexes[i];
      |idx.mask| == |idx.cols| <= |args| && forall x :: 0 <= x < |s.rows| ==> RowTyped(s.rows[x], s.columns)
    ensures
      var idx := s.indexes[i];
      var k, minus := KeyItems(args), Signs(idx.mask);
      var lower := Flatten(idx.entries, LowerBound(idx.mask, idx.entries, k));
      var upper := Flatten(idx.entries, UpperBound(idx.mask, idx.entries, k));
      && (forall x: nat :: x in lower <==> x < |s.rows| && !CellsBefore(minus, ItemsOf(s.rows[x], idx.cols), args))
      && (forall x: nat :: x in upper <==> x < |s.rows| && CellsBefore(minus, args, ItemsOf(s.rows[x], idx.cols)))
      && (Find(idx.mask, idx.entries, k).Some?
          <==> exists x :: 0 <= x < |s.rows| && SameCells(ItemsOf(s.rows[x], idx.cols), args[..|idx.cols|]))
  {
    hide LexLess, CellsBefore, SameCells, Exact, Flatten;
    var idx := s.indexes[i];
    var k := KeyItems(args);
    BoundedWalk(s, i, k);
    EqualFound(s, i, k);
    assert k[..|idx.cols|] == KeyItems(args[..|idx.cols|]);
    forall x | 0 <= x < |s.rows|
      ensures RowTyped(s.rows[x], s.columns)
      ensures LexLess(idx.mask, KeyOf(s.rows[x], idx.cols), k)
              <==> CellsBefore(Signs(idx.mask), ItemsOf(s.rows[x], idx.cols), args)
      ensures LexLess(idx.mask, k, KeyOf(s.rows[x], idx.cols))
              <==> CellsBefore(Signs(idx.mask), args, ItemsOf(s.rows[x], idx.cols))
      ensures KeyOf(s.rows[x], idx.cols) == k[..|idx.mask|]
              <==> SameCells(ItemsOf(s.rows[x], idx.cols), args[..|idx.cols|])
    {
      assert RowTyped(s.rows[x], s.columns);
      var items := ItemsOf(s.rows[x], idx.cols);
      KeyOfItems(s.rows[x], idx.cols);
      KeyItemsBefore(idx.mask, items, args);
      KeyItemsBefore(idx.mask, args, items);
      KeyItemsSame(items, args[..|idx.cols|]);
    }
  }
}
