/** `std::map<IndexKey, V, IndexCompare>`: entries kept strictly ascending in the order of a column mask. */
module OrderedMap {
  import opened Types
  import opened KeyOrder

  datatype Entry<+V> = Entry(key: Key, val: V)

  type OMap<+V> = seq<Entry<V>>

  /** A stored key: exactly the indexed columns, typed. */
  predicate StoredKey(mask: seq<int>, k: Key) {
    |k| == |mask| && KeyTyped(mask, k)
  }

  predicate Ascending<V>(mask: seq<int>, m: OMap<V>) {
    && (forall i :: 0 <= i < |m| ==> StoredKey(mask, m[i].key))
    && (forall i, j :: 0 <= i < j < |m| ==> LexLess(mask, m[i].key, m[j].key))
  }

  function Keys<V>(m: OMap<V>): set<Key> {
    set i | 0 <= i < |m| :: m[i].key
  }

  lemma AscendingTail<V>(mask: seq<int>, m: OMap<V>)
    requires Ascending(mask, m) && m != []
    ensures Ascending(mask, m[1..]) && forall i :: 0 < i < |m| ==> m[i] == m[1..][i-1]
  {
    hide LexLess, StoredKey;
  }

  /** `lower_bound` over the entries: the first whose key is not less than `k`. */
  function LowerBound<V>(mask: seq<int>, m: OMap<V>, k: Key): (p: nat)
    requires Ascending(mask, m) && KeyTyped(mask, k)
    ensures p <= |m|
    ensures forall i :: 0 <= i < p ==> LexLess(mask, m[i].key, k)
    ensures p < |m| ==> !LexLess(mask, m[p].key, k)
  {
    hide LexLess, KeyTyped, StoredKey, Ascending;
    if m == [] || !LexLess(mask, m[0].key, k) then 0
    else
      AscendingTail(mask, m);
      1 + LowerBound(mask, m[1..], k)
  }

  /** `upper_bound`: the first entry whose key is greater than `k`. */
  function UpperBound<V>(mask: seq<int>, m: OMap<V>, k: Key): (p: nat)
    requires Ascending(mask, m) && KeyTyped(mask, k)
    ensures p <= |m|
    ensures forall i :: 0 <= i < p ==> !LexLess(mask, k, m[i].key)
    ensures p < |m| ==> LexLess(mask, k, m[p].key)
  {
    hide LexLess, KeyTyped, StoredKey, Ascending;
    if m == [] || LexLess(mask, k, m[0].key) then 0
    else
      AscendingTail(mask, m);
      1 + UpperBound(mask, m[1..], k)
  }

  /** `find`: the position of the entry equivalent to `k`, if any. */
  function Find<V>(mask: seq<int>, m: OMap<V>, k: Key): Option<nat>
    requires Ascending(mask, m) && KeyTyped(mask, k)
  {
    var p := LowerBound(mask, m, k);
    if p < |m| && !LexLess(mask, k, m[p].key) then Some(p) else None
  }

  function InsertAt<V>(m: OMap<V>, p: nat, k: Key, v: V): OMap<V>
    requires p <= |m|
  {
    m[..p] + [Entry(k, v)] + m[p..]
  }

  function EraseAt<V>(m: OMap<V>, p: nat): OMap<V>
    requires p < |m|
  {
    m[..p] + m[p+1..]
  }

  /** All entries from a lower bound on are not less than the key. */
  lemma BoundsSplit<V>(mask: seq<int>, m: OMap<V>, k: Key)
    requires Ascending(mask, m) && KeyTyped(mask, k)
    ensures forall i :: LowerBound(mask, m, k) <= i < |m| ==> !LexLess(mask, m[i].key, k)
    ensures forall i :: UpperBound(mask, m, k) <= i < |m| ==> LexLess(mask, k, m[i].key)
  {
    hide LexLess;
    var p, q := LowerBound(mask, m, k), UpperBound(mask, m, k);
    forall i | p < i < |m|
      ensures !LexLess(mask, m[i].key, k)
    {
      if LexLess(mask, m[i].key, k) {
        LexTransitive(mask, m[p].key, m[i].key, k);
      }
    }
    forall i | q < i < |m|
      ensures LexLess(mask, k, m[i].key)
    {
      LexTransitive(mask, k, m[q].key, m[i].key);
    }
  }

  /** A lookup finds exactly the entry with the same indexed columns. */
  lemma FindSpec<V>(mask: seq<int>, m: OMap<V>, k: Key)
    requires Ascending(mask, m) && KeyTyped(mask, k)
    ensures
      var f := Find(mask, m, k);
      && (f.Some? ==> f.value < |m| && m[f.value].key == k[..|mask|])
      && (forall i :: 0 <= i < |m| && m[i].key == k[..|mask|] ==> f == Some(i))
      && (f.Some? <==> k[..|mask|] in Keys(m))
  {
    var p := LowerBound(mask, m, k);
    if p < |m| {
      LexTotal(mask, m[p].key, k);
      assert m[p].key[..|mask|] == m[p].key;
    }
    forall i | 0 <= i < |m| && m[i].key == k[..|mask|]
      ensures i == p && Find(mask, m, k) == Some(i)
    {
      assert m[i].key[..|mask|] == m[i].key;
      LexTotal(mask, m[i].key, k);
      LexTotal(mask, k, m[i].key);
      if p < i {
        LexPrefix(mask, m[p].key, k, m[i].key);
      }
    }
  }

  /** Inserting at the lower bound of a new key keeps the order. */
  lemma InsertAscending<V>(mask: seq<int>, m: OMap<V>, k: Key, v: V)
    requires Ascending(mask, m) && StoredKey(mask, k) && Find(mask, m, k).None?
    ensures Ascending(mask, InsertAt(m, LowerBound(mask, m, k), k, v))
  {
    hide LexLess, KeyTyped;
    var p := LowerBound(mask, m, k);
    BoundsSplit(mask, m, k);
    FindSpec(mask, m, k);
    assert k[..|mask|] == k;
    forall i | p <= i < |m|
      ensures LexLess(mask, k, m[i].key)
    {
      assert m[i].key in Keys(m);
      assert m[i].key[..|mask|] == m[i].key;
      LexTotal(mask, k, m[i].key);
    }
  }

  lemma InsertKeys<V>(m: OMap<V>, p: nat, k: Key, v: V)
    requires p <= |m|
    ensures Keys(InsertAt(m, p, k, v)) == Keys(m) + {k}
  {
    var m' := InsertAt(m, p, k, v);
    assert m'[p].key == k;
    forall i | 0 <= i < |m|
      ensures m[i].key in Keys(m')
    {
      assert m'[if i < p then i else i + 1].key == m[i].key;
    }
  }

  lemma EraseAscending<V>(mask: seq<int>, m: OMap<V>, p: nat)
    requires Ascending(mask, m) && p < |m|
    ensures Ascending(mask, EraseAt(m, p))
    ensures Keys(EraseAt(m, p)) == Keys(m) - {m[p].key}
  {
    hide LexLess, KeyTyped;
    var m' := EraseAt(m, p);
    forall i | 0 <= i < |m| && i != p
      ensures m[i].key != m[p].key && m[i].key in Keys(m')
    {
      DistinctKeys(mask, m, i, p);
      assert m'[if i < p then i else i - 1] == m[i];
    }
  }

  lemma DistinctKeys<V>(mask: seq<int>, m: OMap<V>, i: nat, j: nat)
    requires Ascending(mask, m) && i < |m| && j < |m| && i != j
    ensures m[i].key != m[j].key
  {
    LexTotal(mask, m[i].key, m[j].key);
    LexTotal(mask, m[j].key, m[i].key);
  }

  /** The value stored under a key, if any. */
  ghost function Lookup<V>(m: OMap<V>, k: Key): Option<V> {
    if k in Keys(m) then
      var i :| 0 <= i < |m| && m[i].key == k;
      Some(m[i].val)
    else None
  }

  lemma LookupAt<V>(mask: seq<int>, m: OMap<V>, i: nat)
    requires Ascending(mask, m) && i < |m|
    ensures Lookup(m, m[i].key) == Some(m[i].val)
  {
    assert m[i].key in Keys(m);
    var j :| 0 <= j < |m| && m[j].key == m[i].key && Lookup(m, m[i].key) == Some(m[j].val);
    if i != j {
      DistinctKeys(mask, m, i, j);
    }
  }

  lemma FindLookup<V>(mask: seq<int>, m: OMap<V>, k: Key)
    requires Ascending(mask, m) && StoredKey(mask, k)
    ensures Find(mask, m, k).None? ==> Lookup(m, k).None?
    ensures Find(mask, m, k).Some? ==>
              var p := LowerBound(mask, m, k);
              Find(mask, m, k) == Some(p) && p < |m| && m[p].key == k && Lookup(m, k) == Some(m[p].val)
  {
    assert k[..|mask|] == k;
    FindSpec(mask, m, k);
    if Find(mask, m, k).Some? {
      LookupAt(mask, m, LowerBound(mask, m, k));
    }
  }

  lemma LookupInsert<V>(mask: seq<int>, m: OMap<V>, k: Key, v: V)
    requires Ascending(mask, m) && StoredKey(mask, k) && Find(mask, m, k).None?
    ensures
      var m' := InsertAt(m, LowerBound(mask, m, k), k, v);
      Ascending(mask, m') && forall k' :: Lookup(m', k') == if k' == k then Some(v) else Lookup(m, k')
  {
    hide LexLess, KeyTyped;
    var p := LowerBound(mask, m, k);
    var m' := InsertAt(m, p, k, v);
    InsertAscending(mask, m, k, v);
    InsertKeys(m, p, k, v);
    assert m'[p] == Entry(k, v);
    LookupAt(mask, m', p);
    forall k' | k' != k && k' in Keys(m)
      ensures Lookup(m', k') == Lookup(m, k')
    {
      var i :| 0 <= i < |m| && m[i].key == k';
      LookupAt(mask, m, i);
      assert m'[if i < p then i else i + 1] == m[i];
      LookupAt(mask, m', if i < p then i else i + 1);
    }
  }

  lemma LookupErase<V>(mask: seq<int>, m: OMap<V>, p: nat)
    requires Ascending(mask, m) && p < |m|
    ensures
      var m' := EraseAt(m, p);
      Ascending(mask, m') && forall k' :: Lookup(m', k') == if k' == m[p].key then None else Lookup(m, k')
  {
    hide LexLess, KeyTyped;
    var m' := EraseAt(m, p);
    EraseAscending(mask, m, p);
    forall k' | k' != m[p].key && k' in Keys(m)
      ensures Lookup(m', k') == Lookup(m, k')
    {
      var i :| 0 <= i < |m| && m[i].key == k';
      LookupAt(mask, m, i);
      assert m'[if i < p then i else i - 1] == m[i];
      LookupAt(mask, m', if i < p then i else i - 1);
    }
  }

  /** Replacing values entry by entry keeps the order, and lookups see the new values. */
  lemma LookupSameKeys<V, W>(mask: seq<int>, m: OMap<V>, m': OMap<W>)
    requires Ascending(mask, m) && |m'| == |m|
    requires forall i :: 0 <= i < |m| ==> m'[i].key == m[i].key
    ensures Ascending(mask, m') && Keys(m') == Keys(m)
    ensures forall i :: 0 <= i < |m| ==>
              Lookup(m, m[i].key) == Some(m[i].val) && Lookup(m', m[i].key) == Some(m'[i].val)
  {
    forall x | x in Keys(m)
      ensures x in Keys(m')
    {
      var i :| 0 <= i < |m| && m[i].key == x;
      assert m'[i].key == x;
    }
    forall i | 0 <= i < |m|
      ensures Lookup(m, m[i].key) == Some(m[i].val) && Lookup(m', m[i].key) == Some(m'[i].val)
    {
      LookupAt(mask, m, i);
      LookupAt(mask, m', i);
    }
  }

  /** Two ordered maps with the same lookups are the same sequence of entries. */
  lemma SameLookups<V>(mask: seq<int>, m1: OMap<V>, m2: OMap<V>)
    requires Ascending(mask, m1) && Ascending(mask, m2)
    requires forall k :: Lookup(m1, k) == Lookup(m2, k)
    ensures m1 == m2
  {
    forall k
      ensures k in Keys(m1) <==> k in Keys(m2)
    {
      assert Lookup(m1, k) == Lookup(m2, k);
    }
    forall i, j | 0 <= i < |m1| && 0 <= j < |m2| && m1[i].key == m2[j].key
      ensures m1[i] == m2[j]
    {
      LookupAt(mask, m1, i);
      LookupAt(mask, m2, j);
    }
    Canonical(mask, m1, m2);
  }

  /** The entries of a map are determined by its keys and the value at each key. */
  lemma {:induction false} Canonical<V>(mask: seq<int>, m1: OMap<V>, m2: OMap<V>)
    requires Ascending(mask, m1) && Ascending(mask, m2) && Keys(m1) == Keys(m2)
    requires forall i, j :: 0 <= i < |m1| && 0 <= j < |m2| && m1[i].key == m2[j].key ==> m1[i] == m2[j]
    ensures m1 == m2
    decreases |m1|
  {
    hide LexLess, KeyTyped;
    NoKeys(m1);
    NoKeys(m2);
    if m1 != [] {
      assert m1[0].key in Keys(m2);
      var j :| 0 <= j < |m2| && m2[j].key == m1[0].key;
      assert m2[0].key in Keys(m1);
      var i :| 0 <= i < |m1| && m1[i].key == m2[0].key;
      LexTotal(mask, m1[0].key, m2[0].key);
      assert i == 0;
      TailKeys(mask, m1);
      TailKeys(mask, m2);
      Canonical(mask, m1[1..], m2[1..]);
      assert m1 == [m1[0]] + m1[1..] && m2 == [m2[0]] + m2[1..];
    }
  }

  lemma NoKeys<V>(m: OMap<V>)
    ensures Keys(m) == {} <==> m == []
  {
    assert m != [] ==> m[0].key in Keys(m);
  }

  lemma TailKeys<V>(mask: seq<int>, m: OMap<V>)
    requires Ascending(mask, m) && m != []
    ensures Ascending(mask, m[1..]) && Keys(m[1..]) == Keys(m) - {m[0].key}
  {
    EraseAscending(mask, m, 0);
    assert EraseAt(m, 0) == m[1..];
  }
}
