/** The ordering of index keys: an independent definition, and the compiled comparator that decides it. */
module KeyOrder {
  import opened Types

  function Abs(t: int): nat {
    if t < 0 then -t else t
  }

  /** The four types that comparators are registered for. */
  predicate Registered(t: int) {
    t in {INTEGER, UNSIGNED_INTEGER, FLOAT, STRING}
  }

  /** A mask element: a registered type, negated for descending order. */
  predicate SignedType(t: int) {
    Registered(Abs(t))
  }

  predicate ItemHasType(k: KeyItem, t: int) {
    match k
    case KI(_) => t == INTEGER
    case KU(_) => t == UNSIGNED_INTEGER
    case KF(_) => t == FLOAT
    case KS(_) => t == STRING
  }

  predicate MaskOk(mask: seq<int>) {
    forall c :: 0 <= c < |mask| ==> SignedType(mask[c])
  }

  /** The leading items of `k` have the types of `mask`; further items are ignored by comparisons. */
  predicate KeyTyped(mask: seq<int>, k: Key) {
    |mask| <= |k| && forall c :: 0 <= c < |mask| ==> ItemHasType(k[c], Abs(mask[c]))
  }

  /** Alphabetical order: after a common prefix, `a` ends or has the smaller character. */
  predicate TextBefore(a: string, b: string) {
    exists p: nat :: p <= |a| && p < |b| && a[..p] == b[..p] && (p == |a| || a[p] < b[p])
  }

  predicate Below(a: KeyItem, b: KeyItem) {
    || (a.KI? && b.KI? && a.i < b.i)
    || (a.KU? && b.KU? && a.u < b.u)
    || (a.KF? && b.KF? && a.f < b.f)
    || (a.KS? && b.KS? && TextBefore(a.s, b.s))
  }

  /** Signed item order: a negative type reverses the natural order. */
  predicate ItemLess(t: int, a: KeyItem, b: KeyItem) {
    if t < 0 then Below(b, a) else Below(a, b)
  }

  /** Signed lexicographic order on the columns of `mask`. */
  predicate LexLess(mask: seq<int>, a: Key, b: Key)
    requires |mask| <= |a| && |mask| <= |b|
  {
    exists c :: 0 <= c < |mask| && a[..c] == b[..c] && ItemLess(mask[c], a[c], b[c])
  }

  lemma TextTotal(a: string, b: string)
    ensures !(TextBefore(a, b) && TextBefore(b, a))
    ensures TextBefore(a, b) || a == b || TextBefore(b, a)
    ensures !TextBefore(a, a)
  {
    var n := CommonPrefix(a, b);
    if n < |b| && (n == |a| || a[n] < b[n]) {
      assert TextBefore(a, b);
    } else if n < |a| {
      assert TextBefore(b, a);
    } else {
      assert a == a[..n] && b == b[..n];
    }
  }

  function CommonPrefix(a: string, b: string): (n: nat)
    ensures n <= |a| && n <= |b| && a[..n] == b[..n]
    ensures n < |a| && n < |b| ==> a[n] != b[n]
  {
    if a == [] || b == [] || a[0] != b[0] then 0
    else
      var n := 1 + CommonPrefix(a[1..], b[1..]);
      assert a[..n] == [a[0]] + a[1..][..n-1] && b[..n] == [b[0]] + b[1..][..n-1];
      n
  }

  lemma TextTransitive(a: string, b: string, c: string)
    requires TextBefore(a, b) && TextBefore(b, c)
    ensures TextBefore(a, c)
  {
    var p: nat :| p <= |a| && p < |b| && a[..p] == b[..p] && (p == |a| || a[p] < b[p]);
    var q: nat :| q <= |b| && q < |c| && b[..q] == c[..q] && (q == |b| || b[q] < c[q]);
    var r := if p < q then p else q;
    assert a[..r] == a[..p][..r] == b[..p][..r] == b[..r];
    assert b[..r] == b[..q][..r] == c[..q][..r] == c[..r];
    if p < q {
      assert b[..q][p] == c[..q][p];
    } else if q < p {
      assert a[..p][q] == b[..p][q];
    }
  }

  /** Items of one type are totally ordered. */
  lemma ItemTotal(t: int, a: KeyItem, b: KeyItem)
    requires ItemHasType(a, Abs(t)) && ItemHasType(b, Abs(t))
    ensures !(ItemLess(t, a, b) && ItemLess(t, b, a))
    ensures ItemLess(t, a, b) || a == b || ItemLess(t, b, a)
    ensures !ItemLess(t, a, a)
  {
    if a.KS? {
      TextTotal(a.s, b.s);
      TextTotal(a.s, a.s);
    }
  }

  lemma ItemTransitive(t: int, a: KeyItem, b: KeyItem, c: KeyItem)
    requires ItemLess(t, a, b) && ItemLess(t, b, c)
    ensures ItemLess(t, a, c)
  {
    if a.KS? {
      if t < 0 {
        TextTransitive(c.s, b.s, a.s);
      } else {
        TextTransitive(a.s, b.s, c.s);
      }
    }
  }

  /** Signed lexicographic order is irreflexive and asymmetric, and unrelated keys agree on all indexed columns. */
  lemma LexTotal(mask: seq<int>, a: Key, b: Key)
    requires KeyTyped(mask, a) && KeyTyped(mask, b)
    ensures !(LexLess(mask, a, b) && LexLess(mask, b, a))
    ensures LexLess(mask, a, b) || a[..|mask|] == b[..|mask|] || LexLess(mask, b, a)
    ensures a[..|mask|] == b[..|mask|] ==> !LexLess(mask, a, b)
  {
    forall c | 0 <= c < |mask| {
      ItemTotal(mask[c], a[c], b[c]);
    }
    if a[..|mask|] != b[..|mask|] {
      var c := FirstDifference(a[..|mask|], b[..|mask|]);
      assert a[..c] == a[..|mask|][..c] == b[..|mask|][..c] == b[..c];
      assert ItemLess(mask[c], a[c], b[c]) || ItemLess(mask[c], b[c], a[c]);
    }
  }

  function FirstDifference(a: Key, b: Key): (n: nat)
    requires |a| == |b| && a != b
    ensures n < |a| && a[..n] == b[..n] && a[n] != b[n]
  {
    if a[0] != b[0] then 0
    else
      var n := 1 + FirstDifference(a[1..], b[1..]);
      assert a[..n] == [a[0]] + a[1..][..n-1] && b[..n] == [b[0]] + b[1..][..n-1];
      n
  }

  lemma LexTransitive(mask: seq<int>, a: Key, b: Key, c: Key)
    requires |mask| <= |a| && |mask| <= |b| && |mask| <= |c|
    requires LexLess(mask, a, b) && LexLess(mask, b, c)
    ensures LexLess(mask, a, c)
  {
    var p :| 0 <= p < |mask| && a[..p] == b[..p] && ItemLess(mask[p], a[p], b[p]);
    var q :| 0 <= q < |mask| && b[..q] == c[..q] && ItemLess(mask[q], b[q], c[q]);
    var r := if p < q then p else q;
    assert a[..r] == a[..p][..r] == b[..p][..r] == b[..r];
    assert b[..r] == b[..q][..r] == c[..q][..r] == c[..r];
    if p < q {
      assert b[..q][p] == c[..q][p];
    } else if q < p {
      assert a[..p][q] == b[..p][q];
    } else {
      ItemTransitive(mask[p], a[p], b[p], c[p]);
    }
    assert ItemLess(mask[r], a[r], c[r]);
  }

  /** Comparisons look at the indexed columns only. */
  lemma LexPrefix(mask: seq<int>, a: Key, b: Key, b': Key)
    requires |mask| <= |a| && |mask| <= |b| && |mask| <= |b'|
    requires b[..|mask|] == b'[..|mask|]
    ensures LexLess(mask, a, b) <==> LexLess(mask, a, b')
    ensures LexLess(mask, b, a) <==> LexLess(mask, b', a)
  {
    forall c | 0 <= c < |mask|
      ensures b[..c] == b'[..c] && b[c] == b'[c]
    {
      assert b[..c] == b[..|mask|][..c] && b'[..c] == b'[..|mask|][..c];
      assert b[c] == b[..|mask|][c] && b'[c] == b'[..|mask|][c];
    }
  }
}

/** The comparator assembled from parts of three columns, and the table of registered parts. */
module Comparators {
  import opened Types
  import opened KeyOrder

  /** `KeyItemComparator<T>::Compare` for the registered types and their negations. */
  function CompareItem(t: int, a: KeyItem, b: KeyItem): int
    requires SignedType(t) && ItemHasType(a, Abs(t)) && ItemHasType(b, Abs(t))
  {
    match t
    case 1 => if a.i < b.i then -1 else if a.i > b.i then 1 else 0
    case -1 => if a.i > b.i then -1 else if a.i < b.i then 1 else 0
    case 2 => if a.u < b.u then -1 else if a.u > b.u then 1 else 0
    case -2 => if a.u > b.u then -1 else if a.u < b.u then 1 else 0
    case 3 => if a.f < b.f then -1 else if a.f > b.f then 1 else 0
    case -3 => if a.f > b.f then -1 else if a.f < b.f then 1 else 0
    case 7 => CompareText(a.s, b.s)
    case _ => -CompareText(a.s, b.s)
  }

  /** `std::string::compare`: three-way comparison by characters. */
  function CompareText(a: string, b: string): int {
    if a == [] && b == [] then 0
    else if a == [] then -1
    else if b == [] then 1
    else if a[0] < b[0] then -1
    else if b[0] < a[0] then 1
    else CompareText(a[1..], b[1..])
  }

  lemma {:induction false} CompareTextSign(a: string, b: string)
    ensures CompareText(a, b) < 0 <==> TextBefore(a, b)
    ensures CompareText(a, b) == 0 <==> a == b
  {
    hide TextBefore;
    BeforeNothing(a, b);
    if a != [] && b != [] {
      if a[0] == b[0] {
        CompareTextSign(a[1..], b[1..]);
        assert a == [a[0]] + a[1..] && b == [b[0]] + b[1..];
        BeforeTails(a, b);
      } else {
        BeforeHeads(a, b);
      }
    }
  }

  lemma BeforeNothing(a: string, b: string)
    ensures a == [] || b == [] ==> (TextBefore(a, b) <==> a == [] && b != [])
  {
    if a == [] && b != [] {
      assert a[..0] == b[..0] && 0 == |a| && 0 < |b|;
    }
  }

  lemma BeforeTails(a: string, b: string)
    requires a != [] && b != [] && a[0] == b[0]
    ensures TextBefore(a, b) <==> TextBefore(a[1..], b[1..])
  {
    if TextBefore(a[1..], b[1..]) {
      var p: nat :| p <= |a[1..]| && p < |b[1..]| && a[1..][..p] == b[1..][..p]
                    && (p == |a[1..]| || a[1..][p] < b[1..][p]);
      assert a[..p+1] == [a[0]] + a[1..][..p] && b[..p+1] == [b[0]] + b[1..][..p];
    }
    if TextBefore(a, b) {
      var p: nat :| p <= |a| && p < |b| && a[..p] == b[..p] && (p == |a| || a[p] < b[p]);
      assert a[1..][..p-1] == a[..p][1..] && b[1..][..p-1] == b[..p][1..];
    }
  }

  lemma BeforeHeads(a: string, b: string)
    requires a != [] && b != [] && a[0] != b[0]
    ensures TextBefore(a, b) <==> a[0] < b[0]
  {
    assert forall p :: 0 < p <= |a| ==> a[..p][0] == a[0];
    assert forall p :: 0 < p <= |b| ==> b[..p][0] == b[0];
    assert a[..0] == b[..0];
  }

  lemma CompareItemSign(t: int, a: KeyItem, b: KeyItem)
    requires SignedType(t) && ItemHasType(a, Abs(t)) && ItemHasType(b, Abs(t))
    ensures CompareItem(t, a, b) < 0 <==> ItemLess(t, a, b)
    ensures CompareItem(t, a, b) == 0 <==> a == b
  {
    if a.KS? {
      CompareTextSign(a.s, b.s);
      CompareTextSign(b.s, a.s);
      TextTotal(a.s, b.s);
    }
  }

  /** A pointer to one of the instantiated `Compare` functions. */
  datatype KeyCompare =
    | Comparator1(t1: int)
    | Comparator2(t1: int, t2: int)
    | Comparator3(t1: int, t2: int, t3: int)
  {
    function Mask(): seq<int> {
      match this
      case Comparator1(t1) => [t1]
      case Comparator2(t1, t2) => [t1, t2]
      case Comparator3(t1, t2, t3) => [t1, t2, t3]
    }

    function Compare(a1: Key, a2: Key): int
      requires MaskOk(Mask()) && KeyTyped(Mask(), a1) && KeyTyped(Mask(), a2)
    {
      assert forall c :: 0 <= c < |Mask()| ==> SignedType(Mask()[c]);
      match this
      case Comparator1(t1) =>
        assert t1 == Mask()[0];
        CompareItem(t1, a1[0], a2[0])
      case Comparator2(t1, t2) =>
        assert t1 == Mask()[0] && t2 == Mask()[1];
        var r := CompareItem(t1, a1[0], a2[0]);
        if r != 0 then r else CompareItem(t2, a1[1], a2[1])
      case Comparator3(t1, t2, t3) =>
        assert t1 == Mask()[0] && t2 == Mask()[1] && t3 == Mask()[2];
        var r := CompareItem(t1, a1[0], a2[0]);
        if r != 0 then r
        else
          var r := CompareItem(t2, a1[1], a2[1]);
          if r != 0 then r else CompareItem(t3, a1[2], a2[2])
    }
  }

  function ComparatorFor(mask: seq<int>): KeyCompare
    requires 1 <= |mask| <= PART_SIZE
  {
    if |mask| == 1 then Comparator1(mask[0])
    else if |mask| == 2 then Comparator2(mask[0], mask[1])
    else Comparator3(mask[0], mask[1], mask[2])
  }

  /** One part decides the order on its columns. */
  lemma PartDecides(f: KeyCompare, a: Key, b: Key)
    requires MaskOk(f.Mask()) && KeyTyped(f.Mask(), a) && KeyTyped(f.Mask(), b)
    ensures f.Compare(a, b) < 0 <==> LexLess(f.Mask(), a, b)
    ensures f.Compare(a, b) == 0 <==> a[..|f.Mask()|] == b[..|f.Mask()|]
  {
    var mask := f.Mask();
    forall c | 0 <= c < |mask|
      ensures CompareItem(mask[c], a[c], b[c]) < 0 <==> ItemLess(mask[c], a[c], b[c])
      ensures CompareItem(mask[c], a[c], b[c]) == 0 <==> a[c] == b[c]
      ensures ItemLess(mask[c], a[c], b[c]) ==> a[c] != b[c]
    {
      CompareItemSign(mask[c], a[c], b[c]);
      ItemTotal(mask[c], a[c], b[c]);
    }
    forall c | 0 <= c <= |mask|
      ensures a[..c] == b[..c] <==> forall d :: 0 <= d < c ==> a[d] == b[d]
    {
      assert forall d :: 0 <= d < c ==> a[..c][d] == a[d] && b[..c][d] == b[d];
    }
  }

  /** Lexicographic order splits at any column. */
  lemma LexSplit(mask: seq<int>, n: nat, a: Key, b: Key)
    requires n <= |mask| <= |a| && |mask| <= |b|
    ensures LexLess(mask, a, b) <==>
            LexLess(mask[..n], a, b) || (a[..n] == b[..n] && LexLess(mask[n..], a[n..], b[n..]))
  {
    hide ItemLess;
    if LexLess(mask, a, b) {
      var c :| 0 <= c < |mask| && a[..c] == b[..c] && ItemLess(mask[c], a[c], b[c]);
      if c >= n {
        assert a[..n] == a[..c][..n] && b[..n] == b[..c][..n];
        assert a[n..][..c-n] == a[..c][n..] && b[n..][..c-n] == b[..c][n..];
        assert ItemLess(mask[n..][c-n], a[n..][c-n], b[n..][c-n]);
      } else {
        assert ItemLess(mask[..n][c], a[c], b[c]);
      }
    }
    if LexLess(mask[..n], a, b) || (a[..n] == b[..n] && LexLess(mask[n..], a[n..], b[n..])) {
      LexJoin(mask, n, a, b);
    }
  }

  lemma LexJoin(mask: seq<int>, n: nat, a: Key, b: Key)
    requires n <= |mask| <= |a| && |mask| <= |b|
    requires LexLess(mask[..n], a, b) || (a[..n] == b[..n] && LexLess(mask[n..], a[n..], b[n..]))
    ensures LexLess(mask, a, b)
  {
    hide ItemLess;
    if LexLess(mask[..n], a, b) {
      var c :| 0 <= c < n && a[..c] == b[..c] && ItemLess(mask[..n][c], a[c], b[c]);
      assert ItemLess(mask[c], a[c], b[c]);
    } else {
      var c :| 0 <= c < |mask[n..]| && a[n..][..c] == b[n..][..c] && ItemLess(mask[n..][c], a[n..][c], b[n..][c]);
      assert a[..n+c] == a[..n] + a[n..][..c] && b[..n+c] == b[..n] + b[n..][..c];
      assert ItemLess(mask[n+c], a[n+c], b[n+c]);
    }
  }

  /** The columns compared by part `i`. */
  function Part(mask: seq<int>, i: nat): seq<int>
    requires PART_SIZE * i < |mask|
  {
    mask[PART_SIZE * i .. if PART_SIZE * (i + 1) <= |mask| then PART_SIZE * (i + 1) else |mask|]
  }

  function PartCount(mask: seq<int>): nat {
    (|mask| + PART_SIZE - 1) / PART_SIZE
  }

  function Parts(mask: seq<int>): seq<KeyCompare> {
    seq(PartCount(mask), i requires 0 <= i < PartCount(mask) => ComparatorFor(Part(mask, i)))
  }

  class IndexCompare {
    const fcomp: array<Option<KeyCompare>>

    ghost predicate Valid()
      reads this, fcomp
    {
      && fcomp.Length == MAX_PARTS
      && forall i, j :: 0 <= i < j < fcomp.Length && fcomp[j].Some? ==> fcomp[i].Some?
    }

    /** The parts appended so far. */
    ghost function Appended(): (parts: seq<KeyCompare>)
      requires Valid()
      reads this, fcomp
      ensures |parts| <= MAX_PARTS
      ensures forall i :: 0 <= i < |parts| ==> fcomp[i] == Some(parts[i])
      ensures forall i :: |parts| <= i < MAX_PARTS ==> fcomp[i] == None
    {
      AppendedFrom(0)
    }

    ghost function AppendedFrom(n: nat): (parts: seq<KeyCompare>)
      requires Valid() && n <= MAX_PARTS
      reads this, fcomp
      ensures n + |parts| <= MAX_PARTS
      ensures forall i :: n <= i < n + |parts| ==> fcomp[i] == Some(parts[i - n])
      ensures forall i :: n + |parts| <= i < MAX_PARTS ==> fcomp[i] == None
      decreases MAX_PARTS - n
    {
      if n < MAX_PARTS && fcomp[n].Some? then [fcomp[n].value] + AppendedFrom(n + 1) else []
    }

    constructor ()
      ensures Valid() && Appended() == [] && fresh(fcomp)
    {
      fcomp := new Option<KeyCompare>[MAX_PARTS](_ => None);
    }

    method AppendPartCompare(f: KeyCompare) returns (ok: bool)
      requires Valid()
      modifies fcomp
      ensures Valid()
      ensures ok == (|old(Appended())| < MAX_PARTS)
      ensures Appended() == if ok then old(Appended()) + [f] else old(Appended())
    {
      ghost var parts := Appended();
      var i := 0;
      while i < MAX_PARTS
        invariant 0 <= i <= |parts|
      {
        if fcomp[i].None? {
          break;
        }
        i := i + 1;
      }
      if i == MAX_PARTS {
        return false;
      }
      fcomp[i] := Some(f);
      assert fcomp[|parts|] == Some(f) && (|parts| + 1 < MAX_PARTS ==> fcomp[|parts| + 1] == None);
      assert forall j :: 0 <= j < |parts| ==> fcomp[j] == Some(parts[j]);
      return true;
    }

    /** `operator()`: the parts are run one after another on chunks of the two keys. */
    method Call(k1: Key, k2: Key, ghost mask: seq<int>) returns (less: bool)
      requires Valid() && Appended() == Parts(mask)
      requires MaskOk(mask) && KeyTyped(mask, k1) && KeyTyped(mask, k2)
      ensures less <==> LexLess(mask, k1, k2)
    {
      var pk := 0;
      var result := 0;
      var i := 0;
      while i < MAX_PARTS && fcomp[i].Some?
        invariant 0 <= i <= PartCount(mask) && pk == PART_SIZE * i
        invariant result == 0 && k1[..Compared(mask, i)] == k2[..Compared(mask, i)]
      {
        ChunkStep(mask, i, k1, k2);
        result := fcomp[i].value.Compare(k1[pk..], k2[pk..]);
        if result != 0 {
          return result < 0;
        }
        i := i + 1;
        pk := pk + PART_SIZE;
      }
      LexTotal(mask, k1, k2);
      return false;
    }
  }

  /** How many columns the first `i` parts cover. */
  function Compared(mask: seq<int>, i: nat): (n: nat)
    ensures n <= |mask|
    ensures PART_SIZE * i < |mask| ==> n == PART_SIZE * i
    ensures i >= PartCount(mask) ==> n == |mask|
  {
    if PART_SIZE * i <= |mask| then PART_SIZE * i else |mask|
  }

  /** After equal chunks, part `i` either decides the whole comparison or extends the equal prefix. */
  lemma ChunkStep(mask: seq<int>, i: nat, a: Key, b: Key)
    requires MaskOk(mask) && KeyTyped(mask, a) && KeyTyped(mask, b)
    requires i < PartCount(mask) && a[..Compared(mask, i)] == b[..Compared(mask, i)]
    ensures
      var f := Parts(mask)[i];
      var n := PART_SIZE * i;
      && MaskOk(f.Mask()) && KeyTyped(f.Mask(), a[n..]) && KeyTyped(f.Mask(), b[n..])
      && var r := f.Compare(a[n..], b[n..]);
      && (r != 0 ==> (r < 0 <==> LexLess(mask, a, b)))
      && (r == 0 ==> a[..Compared(mask, i + 1)] == b[..Compared(mask, i + 1)])
  {
    var n, m := PART_SIZE * i, Compared(mask, i + 1);
    var f := Parts(mask)[i];
    assert f.Mask() == mask[n..m];
    assert KeyTyped(mask[n..m], a[n..]) && KeyTyped(mask[n..m], b[n..]);
    PartDecides(f, a[n..], b[n..]);
    ChunkDecides(mask, n, m, a, b);
  }

  lemma ChunkDecides(mask: seq<int>, n: nat, m: nat, a: Key, b: Key)
    requires MaskOk(mask) && KeyTyped(mask, a) && KeyTyped(mask, b)
    requires n <= m <= |mask| && a[..n] == b[..n]
    ensures a[n..][..m-n] == b[n..][..m-n] ==> a[..m] == b[..m]
    ensures a[n..][..m-n] != b[n..][..m-n] ==> (LexLess(mask, a, b) <==> LexLess(mask[n..m], a[n..], b[n..]))
  {
    assert a[..m] == a[..n] + a[n..][..m-n] && b[..m] == b[..n] + b[n..][..m-n];
    LexAfterEqual(mask, n, a, b);
    LexSplit(mask[n..], m - n, a[n..], b[n..]);
    assert mask[n..][..m-n] == mask[n..m];
  }

  lemma LexAfterEqual(mask: seq<int>, n: nat, a: Key, b: Key)
    requires n <= |mask| && MaskOk(mask) && KeyTyped(mask, a) && KeyTyped(mask, b)
    requires a[..n] == b[..n]
    ensures LexLess(mask, a, b) <==> LexLess(mask[n..], a[n..], b[n..])
  {
    LexSplit(mask, n, a, b);
    LexTotal(mask[..n], a, b);
  }
}
