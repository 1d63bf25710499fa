/** The table of registered comparators, filled by the recursive setters, and the lookup of a column mask in it. */
module ComparatorTable {
  import opened Types
  import opened KeyOrder
  import opened Comparators

  /** Type codes of one digit: `v2s`, with a minus sign for descending columns. */
  predicate Code(t: int) {
    1 <= Abs(t) <= 9
  }

  function V2S(v: nat): string
    requires v <= 9
  {
    ['0' + v as char]
  }

  function CodeText(t: int): string
    requires Code(t)
  {
    if t < 0 then "-" + V2S(-t) else V2S(t)
  }

  predicate Codes(mask: seq<int>) {
    forall c :: 0 <= c < |mask| ==> Code(mask[c])
  }

  /** The concatenated text under which a part is registered and looked up. */
  function MaskText(mask: seq<int>): string
    requires Codes(mask)
  {
    if mask == [] then "" else MaskText(mask[..|mask|-1]) + CodeText(mask[|mask|-1])
  }

  /** Reads a code back off the end of a text. */
  function LastCode(s: string): int
    requires s != ""
  {
    var d := s[|s|-1] as int - '0' as int;
    if |s| >= 2 && s[|s|-2] == '-' then -d else d
  }

  lemma {:induction false} LastCodeOfMask(mask: seq<int>)
    requires Codes(mask) && mask != []
    ensures
      var s, t := MaskText(mask), mask[|mask|-1];
      && s != "" && s[|s|-1] != '-' && LastCode(s) == t
      && s == MaskText(mask[..|mask|-1]) + CodeText(t)
  {
    var init := mask[..|mask|-1];
    if init != [] {
      LastCodeOfMask(init);
    }
  }

  /** The text of a mask decodes uniquely. */
  lemma {:induction false} MaskTextInjective(a: seq<int>, b: seq<int>)
    requires Codes(a) && Codes(b) && MaskText(a) == MaskText(b)
    ensures a == b
    decreases |a|
  {
    if a != [] {
      LastCodeOfMask(a);
    }
    if b != [] {
      LastCodeOfMask(b);
    }
    if a != [] && b != [] {
      AppendCancel(MaskText(a[..|a|-1]), MaskText(b[..|b|-1]), CodeText(a[|a|-1]));
      MaskTextInjective(a[..|a|-1], b[..|b|-1]);
    }
  }

  lemma AppendCancel(x: string, y: string, t: string)
    requires x + t == y + t
    ensures x == y
  {
    assert x == (x + t)[..|x|] && y == (y + t)[..|y|];
  }

  lemma MaskTextPair(a: int, b: int)
    requires Code(a) && Code(b)
    ensures MaskText([a]) == CodeText(a)
    ensures MaskText([a, b]) == CodeText(a) + CodeText(b)
  {
    assert [a, b][..1] == [a];
    assert [a][..0] == [];
  }

  lemma MaskTextTriple(a: int, b: int, c: int)
    requires Code(a) && Code(b) && Code(c)
    ensures MaskText([a, b, c]) == CodeText(a) + CodeText(b) + CodeText(c)
  {
    assert [a, b, c][..2] == [a, b];
    MaskTextPair(a, b);
  }

  /** `IndexedDynamicType<v>::next::type`: STRING, FLOAT, UNSIGNED_INTEGER, INTEGER, then UNDEF. */
  function Next(v: nat): nat {
    if v == STRING then FLOAT
    else if v == FLOAT then UNSIGNED_INTEGER
    else if v == UNSIGNED_INTEGER then INTEGER
    else UNDEF
  }

  predicate Partial(mask: seq<int>) {
    1 <= |mask| <= PART_SIZE && MaskOk(mask)
  }

  /** The masks of one column with the type `v`. */
  lemma BothSigns(v: int)
    requires v > 0
    ensures forall mask: seq<int> :: |mask| == 1 ==> (Abs(mask[0]) == v <==> mask == [v] || mask == [-v])
  {
    forall mask: seq<int> | |mask| == 1
      ensures Abs(mask[0]) == v <==> mask == [v] || mask == [-v]
    {
      assert mask == [mask[0]];
    }
  }

  class ComparatorsMap {
    var entries: map<string, KeyCompare>
    var aborted: bool
    ghost var done: set<seq<int>>             // the masks registered so far
    ghost var origin: map<string, seq<int>>   // the mask behind each entry

    ghost predicate Valid()
      reads this
    {
      && !aborted && entries.Keys == origin.Keys
      && (forall mask :: mask in done ==>
            Partial(mask) && MaskText(mask) in origin && origin[MaskText(mask)] == mask)
      && (forall key :: key in origin ==>
            origin[key] in done && MaskText(origin[key]) == key && entries[key] == ComparatorFor(origin[key]))
    }

    constructor ()
      ensures Valid() && done == {}
    {
      entries, aborted, done, origin := map[], false, {}, map[];
    }

    /** `set_map`: a key that is already present aborts the program. */
    method SetMap(key: string, f: KeyCompare, ghost mask: seq<int>)
      requires Valid() && Partial(mask) && key == MaskText(mask) && f == ComparatorFor(mask)
      modifies this
      ensures aborted <==> mask in old(done)
      ensures !aborted ==> Valid() && done == old(done) + {mask}
    {
      if key in entries {
        aborted := true;
        MaskTextInjective(mask, origin[key]);
        return;
      }
      entries := entries[key := f];
      done, origin := done + {mask}, origin[key := mask];
    }

    // CompareFunctionSetter1

    method Set1(v: int)
      requires Valid() && Registered(v)
      requires forall t :: Registered(Abs(t)) && Abs(t) <= v ==> [t] !in done
      modifies this
      ensures Valid()
      ensures forall mask :: mask in done <==>
                mask in old(done) || (|mask| == 1 && MaskOk(mask) && Abs(mask[0]) <= v)
      decreases v
    {
      hide Valid, MaskText;
      MaskTextPair(v, v);
      MaskTextPair(-v, v);
      SetMap(V2S(v), Comparator1(v), [v]);
      SetMap("-" + V2S(v), Comparator1(-v), [-v]);
      if v != INTEGER {
        Set1(Next(v));
      }
      BothSigns(v);
    }

    // CompareFunctionSetter2: `set` walks the first column, `_set2` the second

    ghost predicate Fresh2(v1: int, v2: int)
      reads this
    {
      forall mask :: mask in done && |mask| == 2 ==> Abs(mask[0]) != v1 || Abs(mask[1]) != v2
    }

    method Set2(v1: int, v2: int)
      requires Valid() && (v1 == UNDEF || Registered(v1)) && v2 == STRING
      requires forall mask :: mask in done && |mask| == 2 ==> Abs(mask[0]) > v1
      modifies this
      ensures Valid()
      ensures forall mask :: mask in done <==>
                mask in old(done) || (|mask| == 2 && MaskOk(mask) && Abs(mask[0]) <= v1)
      decreases v1
    {
      if v1 == UNDEF {
        return;
      }
      Set2Signs(v1, v2);
      Set2(Next(v1), v2);
      Set2Second(v1, Next(v2));
    }

    method Set2Second(v1: int, v2: int)
      requires Valid() && Registered(v1) && (v2 == UNDEF || Registered(v2))
      requires forall mask :: mask in done && |mask| == 2 && Abs(mask[0]) == v1 ==> Abs(mask[1]) > v2
      modifies this
      ensures Valid()
      ensures forall mask :: mask in done <==>
                mask in old(done) || (|mask| == 2 && MaskOk(mask) && Abs(mask[0]) == v1 && Abs(mask[1]) <= v2)
      decreases v2
    {
      if v2 == UNDEF {
        return;
      }
      Set2Signs(v1, v2);
      if v1 != INTEGER || v2 != INTEGER {
        Set2Second(v1, Next(v2));
      }
    }

    /** `_set`: the four sign combinations of two types. */
    method Set2Signs(v1: int, v2: int)
      requires Valid() && Registered(v1) && Registered(v2) && Fresh2(v1, v2)
      modifies this
      ensures Valid()
      ensures forall mask :: mask in done <==>
                mask in old(done) || (|mask| == 2 && Abs(mask[0]) == v1 && Abs(mask[1]) == v2)
    {
      hide Valid, MaskText;
      Set2FirstSigns(v1, v2);
      Set2FirstSigns(v1, -v2);
    }

    /** The two entries of `_set` that share the sign of the second column. */
    method Set2FirstSigns(v1: int, t2: int)
      requires Valid() && Registered(v1) && SignedType(t2)
      requires forall mask :: mask in done && |mask| == 2 && Abs(mask[0]) == v1 ==> mask[1] != t2
      modifies this
      ensures Valid()
      ensures forall mask :: mask in done <==>
                mask in old(done) || (|mask| == 2 && Abs(mask[0]) == v1 && mask[1] == t2)
    {
      hide Valid, MaskText;
      MaskTextPair(v1, t2);
      MaskTextPair(-v1, t2);
      assert [v1, t2][0] != [-v1, t2][0];
      SetMap(V2S(v1) + CodeText(t2), Comparator2(v1, t2), [v1, t2]);
      SetMap("-" + V2S(v1) + CodeText(t2), Comparator2(-v1, t2), [-v1, t2]);
      forall mask: seq<int> | |mask| == 2
        ensures Abs(mask[0]) == v1 && mask[1] == t2 <==> mask == [v1, t2] || mask == [-v1, t2]
      {
        assert mask == [mask[0], mask[1]];
      }
    }

    // CompareFunctionSetter3: `set`, `_set2` and `_set3` walk the three columns

    ghost predicate Fresh3(v1: int, v2: int, v3: int)
      reads this
    {
      forall mask :: mask in done && |mask| == 3 ==>
        Abs(mask[0]) != v1 || Abs(mask[1]) != v2 || Abs(mask[2]) != v3
    }

    method Set3(v1: int, v2: int, v3: int)
      requires Valid() && (v1 == UNDEF || Registered(v1)) && v2 == v3 == STRING
      requires forall mask :: mask in done && |mask| == 3 ==> Abs(mask[0]) > v1
      modifies this
      ensures Valid()
      ensures forall mask :: mask in done <==>
                mask in old(done) || (|mask| == 3 && MaskOk(mask) && Abs(mask[0]) <= v1)
      decreases v1
    {
      if v1 == UNDEF {
        return;
      }
      Set3Signs(v1, v2, v3);
      Set3(Next(v1), v2, v3);
      Set3Second(v1, Next(v2), v3);
      Set3Third(v1, v2, Next(v3));
    }

    method Set3Second(v1: int, v2: int, v3: int)
      requires Valid() && Registered(v1) && (v2 == UNDEF || Registered(v2)) && v3 == STRING
      requires forall mask :: mask in done && |mask| == 3 && Abs(mask[0]) == v1 ==> Abs(mask[1]) > v2
      modifies this
      ensures Valid()
      ensures forall mask :: mask in done <==>
                mask in old(done) || (|mask| == 3 && MaskOk(mask) && Abs(mask[0]) == v1 && Abs(mask[1]) <= v2)
      decreases v2
    {
      if v2 == UNDEF {
        return;
      }
      Set3Signs(v1, v2, v3);
      Set3Second(v1, Next(v2), v3);
      Set3Third(v1, v2, Next(v3));
    }

    method Set3Third(v1: int, v2: int, v3: int)
      requires Valid() && Registered(v1) && Registered(v2) && (v3 == UNDEF || Registered(v3))
      requires forall mask :: mask in done && |mask| == 3 && Abs(mask[0]) == v1 && Abs(mask[1]) == v2
                 ==> Abs(mask[2]) > v3
      modifies this
      ensures Valid()
      ensures forall mask :: mask in done <==>
                mask in old(done)
                || (|mask| == 3 && MaskOk(mask) && Abs(mask[0]) == v1 && Abs(mask[1]) == v2 && Abs(mask[2]) <= v3)
      decreases v3
    {
      if v3 == UNDEF {
        return;
      }
      Set3Signs(v1, v2, v3);
      if v1 != INTEGER || v2 != INTEGER || v3 != INTEGER {
        Set3Third(v1, v2, Next(v3));
      }
    }

    method Set3Signs(v1: int, v2: int, v3: int)
      requires Valid() && Registered(v1) && Registered(v2) && Registered(v3) && Fresh3(v1, v2, v3)
      modifies this
      ensures Valid()
      ensures forall mask :: mask in done <==>
                mask in old(done)
                || (|mask| == 3 && Abs(mask[0]) == v1 && Abs(mask[1]) == v2 && Abs(mask[2]) == v3)
    {
      hide Valid, MaskText;
      Set3SecondSigns(v1, v2, v3);
      Set3SecondSigns(v1, v2, -v3);
    }

    /** The four entries of `_set` that share the sign of the third column. */
    method Set3SecondSigns(v1: int, v2: int, t3: int)
      requires Valid() && Registered(v1) && Registered(v2) && SignedType(t3)
      requires forall mask :: mask in done && |mask| == 3 && Abs(mask[0]) == v1 && Abs(mask[1]) == v2 ==> mask[2] != t3
      modifies this
      ensures Valid()
      ensures forall mask :: mask in done <==>
                mask in old(done) || (|mask| == 3 && Abs(mask[0]) == v1 && Abs(mask[1]) == v2 && mask[2] == t3)
    {
      hide Valid, MaskText;
      Set3FirstSigns(v1, v2, t3);
      Set3FirstSigns(v1, -v2, t3);
    }

    method Set3FirstSigns(v1: int, t2: int, t3: int)
      requires Valid() && Registered(v1) && SignedType(t2) && SignedType(t3)
      requires forall mask :: mask in done && |mask| == 3 && Abs(mask[0]) == v1 && mask[1] == t2 ==> mask[2] != t3
      modifies this
      ensures Valid()
      ensures forall mask :: mask in done <==>
                mask in old(done) || (|mask| == 3 && Abs(mask[0]) == v1 && mask[1] == t2 && mask[2] == t3)
    {
      hide Valid, MaskText;
      MaskTextTriple(v1, t2, t3);
      MaskTextTriple(-v1, t2, t3);
      assert [v1, t2, t3][0] != [-v1, t2, t3][0];
      SetMap(V2S(v1) + CodeText(t2) + CodeText(t3), Comparator3(v1, t2, t3), [v1, t2, t3]);
      SetMap("-" + V2S(v1) + CodeText(t2) + CodeText(t3), Comparator3(-v1, t2, t3), [-v1, t2, t3]);
      forall mask: seq<int> | |mask| == 3
        ensures Abs(mask[0]) == v1 && mask[1] == t2 && mask[2] == t3 <==>
                mask == [v1, t2, t3] || mask == [-v1, t2, t3]
      {
        assert mask == [mask[0], mask[1], mask[2]];
      }
    }

    /** No registration finds its key taken, and afterwards exactly the combinations of length 1 to 3 are present. */
    method InitComparators()
      requires Valid() && done == {}
      modifies this
      ensures Valid() && !aborted
      ensures forall mask :: mask in done <==> Partial(mask)
    {
      Set1(STRING);
      Set2(STRING, STRING);
      Set3(STRING, STRING, STRING);
    }
  }

  function ColumnTexts(types: seq<int>): seq<string>
    requires Codes(types)
  {
    seq(|types|, c requires 0 <= c < |types| => CodeText(types[c]))
  }

  lemma MaskTextSnoc(mask: seq<int>, t: int)
    requires Codes(mask) && Code(t)
    ensures Codes(mask + [t]) && MaskText(mask + [t]) == MaskText(mask) + CodeText(t)
  {
    assert (mask + [t])[..|mask|] == mask;
  }

  lemma MaskTextEmpty()
    ensures MaskText([]) == ""
  {
  }

  /** The columns of a part, as signed types, in the loops of `GetComparator`. */
  method SubMask(mask: seq<string>, start: nat, size: nat, ghost types: seq<int>) returns (sub: string)
    requires Codes(types) && mask == ColumnTexts(types) && start + size <= |mask|
    ensures sub == MaskText(types[start..start + size])
  {
    hide MaskText, CodeText;
    MaskTextEmpty();
    assert types[start..start + 0] == [];
    sub := "";
    for p := 0 to size
      invariant sub == MaskText(types[start..start + p])
    {
      MaskTextSnoc(types[start..start + p], types[start + p]);
      assert types[start..start + p] + [types[start + p]] == types[start..start + p + 1];
      sub := sub + mask[start + p];
    }
  }

  /** A part is found exactly when all its columns have registered types. */
  method AppendPart(map_: ComparatorsMap, sub: string, result: IndexCompare, ghost part: seq<int>) returns (ok: bool)
    requires map_.Valid() && (forall m :: m in map_.done <==> Partial(m))
    requires Codes(part) && 1 <= |part| <= PART_SIZE && sub == MaskText(part)
    requires result.Valid()
    modifies result.fcomp
    ensures result.Valid()
    ensures ok <==> MaskOk(part) && |old(result.Appended())| < MAX_PARTS
    ensures ok ==> result.Appended() == old(result.Appended()) + [ComparatorFor(part)]
  {
    if sub !in map_.entries {
      return false;
    }
    MaskTextInjective(part, map_.origin[sub]);
    ok := result.AppendPartCompare(map_.entries[sub]);
  }

  /**
   * `GetComparator`: succeeds exactly on masks of registered types that need at most 22 parts, and then the
   * assembled parts are those of the whole mask.
   */
  method GetComparator(map_: ComparatorsMap, mask: seq<string>, result: IndexCompare, ghost types: seq<int>)
    returns (ok: bool, error: string)
    requires map_.Valid() && (forall m :: m in map_.done <==> Partial(m))
    requires Codes(types) && mask == ColumnTexts(types)
    requires result.Valid() && result.Appended() == []
    modifies result.fcomp
    ensures result.Valid()
    ensures ok <==> MaskOk(types) && |types| <= PART_SIZE * MAX_PARTS
    ensures ok ==> result.Appended() == Parts(types)
    ensures !ok ==> error != ""
  {
    hide MaskText, MaskOk, Parts, Codes, Compared;
    error := "";
    var fullPartsCount := |mask| / PART_SIZE;
    var lastPartSize := |mask| % PART_SIZE;
    var i := 0;
    PartsSoFar(types, 0);
    while i < fullPartsCount
      invariant 0 <= i <= fullPartsCount
      invariant result.Valid() && result.Appended() == Prefix(types, i) && i <= MAX_PARTS
      invariant PrefixOk(types, i)
    {
      PartsSoFar(types, i);
      var subMask := SubMask(mask, i * PART_SIZE, PART_SIZE, types);
      var found := AppendPart(map_, subMask, result, Part(types, i));
      if !found {
        return false, "Comparator does not defined for mask '" + subMask + "'";
      }
      i := i + 1;
    }
    if lastPartSize != 0 {
      PartsSoFar(types, i);
      var subMask := SubMask(mask, i * PART_SIZE, lastPartSize, types);
      var found := AppendPart(map_, subMask, result, Part(types, i));
      if !found {
        return false, "Comparator does not defined for mask '" + subMask + "'";
      }
    }
    PartsSoFar(types, PartCount(types));
    return true, "";
  }

  predicate PrefixOk(types: seq<int>, i: nat) {
    MaskOk(types[..Compared(types, i)])
  }

  function Prefix(types: seq<int>, i: nat): seq<KeyCompare>
    requires i <= PartCount(types)
  {
    Parts(types)[..i]
  }

  /** What one more part contributes to the assembled comparator and to the verdict on the mask. */
  lemma PartsSoFar(types: seq<int>, i: nat)
    requires Codes(types) && i <= PartCount(types)
    ensures Prefix(types, 0) == [] && PrefixOk(types, 0)
    ensures |Prefix(types, i)| == i
    ensures i == PartCount(types) ==> Prefix(types, i) == Parts(types) && (PrefixOk(types, i) <==> MaskOk(types))
    ensures i < PartCount(types) ==>
              && Codes(Part(types, i)) && 1 <= |Part(types, i)| <= PART_SIZE
              && Part(types, i) == types[PART_SIZE * i..PART_SIZE * i + |Part(types, i)|]
              && Prefix(types, i + 1) == Prefix(types, i) + [ComparatorFor(Part(types, i))]
              && (PrefixOk(types, i + 1) <==> PrefixOk(types, i) && MaskOk(Part(types, i)))
              && (!MaskOk(Part(types, i)) ==> !MaskOk(types))
              && (i + 1 == PartCount(types) ==>
                    Prefix(types, i + 1) == Parts(types) && (PrefixOk(types, i + 1) <==> MaskOk(types)))
  {
    var n, m := Compared(types, i), Compared(types, i + 1);
    if i < PartCount(types) {
      assert types[..m] == types[..n] + Part(types, i);
      assert forall c :: n <= c < m ==> types[c] == Part(types, i)[c - n];
    }
    assert types[..|types|] == types;
    assert Parts(types)[..PartCount(types)] == Parts(types);
  }
}
