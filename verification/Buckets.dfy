/** Buckets of row numbers, and their renumbering when a row is inserted into or deleted from the table. */
module Buckets {
  import opened Types

  type Bucket = seq<nat>

  predicate Sorted(b: Bucket) {
    forall i, j :: 0 <= i < j < |b| ==> b[i] < b[j]
  }

  predicate Distinct(b: Bucket) {
    forall i, j :: 0 <= i < j < |b| ==> b[i] != b[j]
  }

  /** Row numbers are `size_t` values. */
  predicate SizeT(b: Bucket) {
    forall i :: 0 <= i < |b| ==> b[i] < SIZE_T_COUNT
  }

  /** `std::lower_bound` bisects, also on a bucket that is not sorted. */
  function Bisect(b: Bucket, x: nat, first: nat, len: nat): (p: nat)
    requires first + len <= |b|
    ensures first <= p <= first + len
    decreases len
  {
    if len == 0 then first
    else
      var half := len / 2;
      if b[first + half] < x then Bisect(b, x, first + half + 1, len - half - 1)
      else Bisect(b, x, first, half)
  }

  function LowerBoundOf(b: Bucket, x: nat): (p: nat)
    ensures p <= |b|
  {
    Bisect(b, x, 0, |b|)
  }

  /** Position `p` separates the row numbers below `x` from the others. */
  predicate SplitsAt(b: Bucket, x: nat, p: nat)
    requires p <= |b|
  {
    && (forall i :: 0 <= i < p ==> b[i] < x)
    && (forall i :: p <= i < |b| ==> x <= b[i])
  }

  /** Bisection finds the right place in this bucket. */
  predicate Splits(b: Bucket, x: nat) {
    SplitsAt(b, x, LowerBoundOf(b, x))
  }

  lemma {:induction false} BisectSorted(b: Bucket, x: nat, first: nat, len: nat)
    requires first + len <= |b| && Sorted(b)
    ensures forall i :: first <= i < Bisect(b, x, first, len) ==> b[i] < x
    ensures forall i :: Bisect(b, x, first, len) <= i < first + len ==> x <= b[i]
    decreases len
  {
    if len != 0 {
      var half := len / 2;
      if b[first + half] < x {
        BisectSorted(b, x, first + half + 1, len - half - 1);
      } else {
        BisectSorted(b, x, first, half);
      }
    }
  }

  lemma SortedSplits(b: Bucket, x: nat)
    requires Sorted(b)
    ensures Splits(b, x)
  {
    BisectSorted(b, x, 0, |b|);
  }

  /** `++(*reference)` from the lower bound to the end. */
  function Raise(b: Bucket, x: nat): (r: Bucket)
    ensures |r| == |b|
  {
    seq(|b|, i requires 0 <= i < |b| => if i < LowerBoundOf(b, x) then b[i] else b[i] + 1)
  }

  /** `--` on a `size_t`. */
  function Decrement(x: nat): nat {
    if x == 0 then SIZE_T_COUNT - 1 else x - 1
  }

  /** `--(*reference)` from the lower bound to the end. */
  function Lower(b: Bucket, x: nat): (r: Bucket)
    ensures |r| == |b|
  {
    seq(|b|, i requires 0 <= i < |b| => if i < LowerBoundOf(b, x) then b[i] else Decrement(b[i]))
  }

  /** Where row `y` was before a row was inserted at `x != y`. */
  function BeforeInsert(y: nat, x: nat): nat {
    if y > x then y - 1 else y
  }

  /** Where row `y` was before row `x` was deleted. */
  function BeforeDelete(y: nat, x: nat): nat {
    if y >= x then y + 1 else y
  }

  /** After an insertion the raised bucket is right exactly when bisection found the right place. */
  lemma RaiseExact(b: Bucket, x: nat)
    requires Distinct(b)
    ensures Splits(b, x) <==>
            Distinct(Raise(b, x)) && forall y: nat :: y in Raise(b, x) <==> y != x && BeforeInsert(y, x) in b
  {
    if Splits(b, x) {
      RaiseRight(b, x);
    } else if forall y: nat :: y in Raise(b, x) <==> y != x && BeforeInsert(y, x) in b {
      if i :| LowerBoundOf(b, x) <= i < |b| && b[i] < x {
        RaisedTooEarly(b, x, i);
      } else {
        var i :| 0 <= i < LowerBoundOf(b, x) && x <= b[i];
        NotRaised(b, x, i);
      }
    }
  }

  lemma RaiseRight(b: Bucket, x: nat)
    requires Distinct(b) && Splits(b, x)
    ensures Distinct(Raise(b, x)) && forall y: nat :: y in Raise(b, x) <==> y != x && BeforeInsert(y, x) in b
  {
    var r := Raise(b, x);
    forall i | 0 <= i < |b|
      ensures r[i] in r && b[i] in b && r[i] != x && BeforeInsert(r[i], x) == b[i]
    {
      assert b[i] in b;
    }
    forall y: nat | y != x && BeforeInsert(y, x) in b
      ensures y in r
    {
      var i :| 0 <= i < |b| && b[i] == BeforeInsert(y, x);
      assert r[i] == y;
    }
  }

  /** A row below `x` that was raised leaves its old number unaccounted for, or pushes the fault one row down. */
  lemma {:induction false} RaisedTooEarly(b: Bucket, x: nat, i: nat)
    requires Distinct(b) && LowerBoundOf(b, x) <= i < |b| && b[i] < x
    requires forall y: nat :: y in Raise(b, x) <==> y != x && BeforeInsert(y, x) in b
    ensures false
    decreases b[i]
  {
    var r := Raise(b, x);
    assert BeforeInsert(b[i], x) in b;
    assert b[i] in r;
    var j :| 0 <= j < |r| && r[j] == b[i];
    if j >= LowerBoundOf(b, x) {
      RaisedTooEarly(b, x, j);
    }
  }

  /** A row from `x` on that was not raised leaves its new number unaccounted for, or pushes the fault one row up. */
  lemma {:induction false} NotRaised(b: Bucket, x: nat, i: nat)
    requires Distinct(b) && i < LowerBoundOf(b, x) && x <= b[i]
    requires forall y: nat :: y in Raise(b, x) <==> y != x && BeforeInsert(y, x) in b
    ensures false
    decreases MaxOf(b) - b[i]
  {
    var r := Raise(b, x);
    assert BeforeInsert(b[i] + 1, x) == b[i];
    assert b[i] + 1 in r;
    var j :| 0 <= j < |r| && r[j] == b[i] + 1;
    if j < LowerBoundOf(b, x) {
      NotRaised(b, x, j);
    }
  }

  function MaxOf(b: Bucket): (n: nat)
    ensures forall i :: 0 <= i < |b| ==> b[i] <= n
  {
    if b == [] then 0 else
      var n := MaxOf(b[1..]);
      assert forall i :: 1 <= i < |b| ==> b[i] == b[1..][i-1];
      if b[0] > n then b[0] else n
  }

  /** After a deletion the lowered bucket is right exactly when bisection found the right place. */
  lemma LowerExact(b: Bucket, x: nat)
    requires Distinct(b) && x !in b && x < SIZE_T_COUNT && SizeT(b)
    ensures Splits(b, x) <==>
            Distinct(Lower(b, x)) && forall y: nat :: y in Lower(b, x) <==> BeforeDelete(y, x) in b
  {
    if Splits(b, x) {
      LowerRight(b, x);
    } else if forall y: nat :: y in Lower(b, x) <==> BeforeDelete(y, x) in b {
      if i :| LowerBoundOf(b, x) <= i < |b| && b[i] < x {
        LoweredTooEarly(b, x, i);
      } else {
        var i :| 0 <= i < LowerBoundOf(b, x) && x <= b[i];
        NotLowered(b, x, i);
      }
    }
  }

  lemma LowerRight(b: Bucket, x: nat)
    requires Distinct(b) && x !in b && Splits(b, x)
    ensures Distinct(Lower(b, x)) && forall y: nat :: y in Lower(b, x) <==> BeforeDelete(y, x) in b
  {
    var p, r := LowerBoundOf(b, x), Lower(b, x);
    forall i | 0 <= i < |b|
      ensures r[i] in r && b[i] in b && b[i] != x && BeforeDelete(r[i], x) == b[i]
    {
      assert b[i] in b;
    }
    forall y: nat | BeforeDelete(y, x) in b
      ensures y in r
    {
      var i :| 0 <= i < |b| && b[i] == BeforeDelete(y, x);
      assert r[i] == y;
    }
  }

  lemma {:induction false} LoweredTooEarly(b: Bucket, x: nat, i: nat)
    requires Distinct(b) && x !in b && x < SIZE_T_COUNT && SizeT(b) && LowerBoundOf(b, x) <= i < |b| && b[i] < x
    requires forall y: nat :: y in Lower(b, x) <==> BeforeDelete(y, x) in b
    ensures false
    decreases x - b[i]
  {
    var r := Lower(b, x);
    assert BeforeDelete(b[i], x) in b;
    assert b[i] in r;
    var j :| 0 <= j < |r| && r[j] == b[i];
    if j >= LowerBoundOf(b, x) {
      assert b[j] != x;
      LoweredTooEarly(b, x, j);
    }
  }

  lemma {:induction false} NotLowered(b: Bucket, x: nat, i: nat)
    requires Distinct(b) && x !in b && x < SIZE_T_COUNT && SizeT(b) && i < LowerBoundOf(b, x) && x <= b[i]
    requires forall y: nat :: y in Lower(b, x) <==> BeforeDelete(y, x) in b
    ensures false
    decreases b[i]
  {
    var r := Lower(b, x);
    assert b[i] != x;
    assert BeforeDelete(b[i] - 1, x) == b[i];
    assert b[i] - 1 in r;
    var j :| 0 <= j < |r| && r[j] == b[i] - 1;
    if j < LowerBoundOf(b, x) {
      assert b[j] != x;
      NotLowered(b, x, j);
    }
  }

  // std::stable_sort on row numbers

  function InsertSorted(b: Bucket, x: nat): Bucket {
    if b == [] || b[|b|-1] <= x then b + [x] else InsertSorted(b[..|b|-1], x) + [b[|b|-1]]
  }

  function StableSort(b: Bucket): Bucket {
    if b == [] then [] else InsertSorted(StableSort(b[..|b|-1]), b[|b|-1])
  }

  lemma {:induction false} InsertSortedMembers(b: Bucket, x: nat)
    ensures multiset(InsertSorted(b, x)) == multiset(b) + multiset{x}
    ensures forall y :: y in InsertSorted(b, x) <==> y in b || y == x
  {
    if b != [] && b[|b|-1] > x {
      InsertSortedMembers(b[..|b|-1], x);
      assert b == b[..|b|-1] + [b[|b|-1]];
    }
  }

  lemma {:induction false} InsertSortedSpec(b: Bucket, x: nat)
    requires Sorted(b) && x !in b
    ensures Sorted(InsertSorted(b, x))
  {
    if b != [] && b[|b|-1] > x {
      var b0, z := b[..|b|-1], b[|b|-1];
      InsertSortedSpec(b0, x);
      InsertSortedMembers(b0, x);
      assert forall y :: y in b0 ==> y < z;
      assert forall i :: 0 <= i < |InsertSorted(b0, x)| ==> InsertSorted(b0, x)[i] in InsertSorted(b0, x);
    } else {
      assert b != [] ==> b[|b|-1] in b;
    }
  }

  /** Sorting permutes the bucket; distinct row numbers come out strictly ascending. */
  lemma {:induction false} StableSortSpec(b: Bucket)
    ensures multiset(StableSort(b)) == multiset(b)
    ensures Distinct(b) ==> Sorted(StableSort(b))
  {
    if b != [] {
      var b0, z := b[..|b|-1], b[|b|-1];
      assert b == b0 + [z];
      StableSortSpec(b0);
      InsertSortedMembers(StableSort(b0), z);
      if Distinct(b) {
        assert z !in b0;
        assert z !in multiset(StableSort(b0));
        InsertSortedSpec(StableSort(b0), z);
      }
    }
  }

  lemma {:induction false} DistinctMultiset(b: Bucket)
    ensures Distinct(b) <==> forall x :: multiset(b)[x] <= 1
  {
    if b != [] {
      var b0, z := b[..|b|-1], b[|b|-1];
      assert b == b0 + [z];
      DistinctMultiset(b0);
      assert forall x :: multiset(b)[x] == multiset(b0)[x] + if x == z then 1 else 0;
      assert z in b0 <==> multiset(b0)[z] > 0;
    }
  }

  lemma SortedSameRows(b: Bucket)
    ensures Distinct(StableSort(b)) <==> Distinct(b)
    ensures forall y :: y in StableSort(b) <==> y in b
    ensures Distinct(b) ==> Sorted(StableSort(b))
  {
    StableSortSpec(b);
    DistinctMultiset(b);
    DistinctMultiset(StableSort(b));
    assert forall y :: y in StableSort(b) <==> y in multiset(StableSort(b));
  }

  lemma NoMember(b: Bucket)
    ensures (forall y :: y !in b) <==> b == []
  {
    assert b != [] ==> b[0] in b;
  }

  /** A sorted bucket is determined by its members. */
  lemma {:induction false} SortedUnique(a: Bucket, b: Bucket)
    requires Sorted(a) && Sorted(b) && forall y :: y in a <==> y in b
    ensures a == b
  {
    NoMember(a);
    NoMember(b);
    if a != [] {
      assert a[0] in b && b[0] in a;
      assert a[0] == b[0];
      assert a == [a[0]] + a[1..] && b == [b[0]] + b[1..];
      forall y
        ensures y in a[1..] <==> y in b[1..]
      {
        assert y in a <==> y == a[0] || y in a[1..];
        assert y in b <==> y == b[0] || y in b[1..];
      }
      SortedUnique(a[1..], b[1..]);
    }
  }
}
