/** Values and order of table cells, and what a key says about the cells it is made of. */
module CellOrder {
  import opened Types
  import opened KeyOrder
  import Comparators
  import opened TableSpec

  // The natural order of cells, with strings compared by their texts.

  predicate SameValue(a: Data, b: Data) {
    match (a, b)
    case (I64(x), I64(y)) => x == y
    case (U64(x), U64(y)) => x == y
    case (F64(x), F64(y)) => x == y
    case (Str(p), Str(q)) => p.text == q.text
    case _ => false
  }

  predicate TextLess(a: string, b: string) {
    b != [] && (a == [] || a[0] < b[0] || (a[0] == b[0] && TextLess(a[1..], b[1..])))
  }

  predicate Smaller(a: Data, b: Data) {
    match (a, b)
    case (I64(x), I64(y)) => x < y
    case (U64(x), U64(y)) => x < y
    case (F64(x), F64(y)) => x < y
    case (Str(p), Str(q)) => TextLess(p.text, q.text)
    case _ => false
  }

  predicate SameCells(a: seq<Data>, b: seq<Data>) {
    |a| == |b| && forall i :: 0 <= i < |a| ==> SameValue(a[i], b[i])
  }

  /** At the first of the compared cells that differ `a` has the smaller one, or the greater one if `minus` is set. */
  predicate CellsBefore(minus: seq<bool>, a: seq<Data>, b: seq<Data>)
    requires |minus| <= |a| && |minus| <= |b|
  {
    exists c :: 0 <= c < |minus| && SameCells(a[..c], b[..c])
                && if minus[c] then Smaller(b[c], a[c]) else Smaller(a[c], b[c])
  }

  /** The rows of a table by the cells in some columns, those with equal cells in table order, each row once. */
  predicate CellSorted(rows: seq<Row>, cols: seq<nat>, minus: seq<bool>, out: seq<nat>)
    requires |minus| == |cols|
    requires forall x, i :: 0 <= x < |rows| && 0 <= i < |cols| ==> cols[i] < |rows[x]|
  {
    && |out| == |rows| && (forall i :: 0 <= i < |out| ==> out[i] < |rows|)
    && (forall i, j :: 0 <= i < j < |out| ==> out[i] != out[j])
    && forall i, j :: 0 <= i < j < |out| ==>
         var a, b := ItemsOf(rows[out[i]], cols), ItemsOf(rows[out[j]], cols);
         CellsBefore(minus, a, b) || (SameCells(a, b) && out[i] < out[j])
  }

  // Keys

  function Signs(mask: seq<int>): (minus: seq<bool>)
    ensures |minus| == |mask| && forall i :: 0 <= i < |mask| ==> (minus[i] <==> mask[i] < 0)
  {
    seq(|mask|, i requires 0 <= i < |mask| => mask[i] < 0)
  }

  /** The key items of some cells. */
  function KeyItems(cells: seq<Data>): Key {
    seq(|cells|, i requires 0 <= i < |cells| => MakeKeyItem(cells[i]))
  }

  lemma {:induction false} TextLessBefore(a: string, b: string)
    ensures TextLess(a, b) <==> TextBefore(a, b)
  {
    if a == [] || b == [] {
      if a == [] && b != [] {
        assert a[..0] == b[..0] && 0 == |a| && 0 < |b|;
      }
    } else if a[0] == b[0] {
      TextLessBefore(a[1..], b[1..]);
      Comparators.BeforeTails(a, b);
    } else {
      assert forall p :: 0 < p <= |a| ==> a[..p][0] == a[0];
      assert forall p :: 0 < p <= |b| ==> b[..p][0] == b[0];
      assert a[..0] == b[..0];
    }
  }

  /** A key item tells exactly the value of its cell, and items are ordered as cells are. */
  lemma ItemMeans(a: Data, b: Data)
    ensures MakeKeyItem(a) == MakeKeyItem(b) <==> SameValue(a, b)
    ensures Below(MakeKeyItem(a), MakeKeyItem(b)) <==> Smaller(a, b)
  {
    if a.Str? && b.Str? {
      TextLessBefore(a.ref.text, b.ref.text);
    }
  }

  /** Keys are equal if and only if the cells have equal values. */
  lemma KeyItemsSame(a: seq<Data>, b: seq<Data>)
    ensures KeyItems(a) == KeyItems(b) <==> SameCells(a, b)
  {
    hide SameValue;
    forall i | 0 <= i < |a| && i < |b|
      ensures MakeKeyItem(a[i]) == MakeKeyItem(b[i]) <==> SameValue(a[i], b[i])
    {
      ItemMeans(a[i], b[i]);
    }
    if KeyItems(a) == KeyItems(b) {
      assert |KeyItems(a)| == |a| && |KeyItems(b)| == |b|;
      forall i | 0 <= i < |a|
        ensures SameValue(a[i], b[i])
      {
        assert KeyItems(a)[i] == KeyItems(b)[i];
      }
    }
  }

  /** The signed order of keys is the signed order of the cells. */
  lemma KeyItemsBefore(mask: seq<int>, a: seq<Data>, b: seq<Data>)
    requires |mask| <= |a| && |mask| <= |b|
    ensures LexLess(mask, KeyItems(a), KeyItems(b)) <==> CellsBefore(Signs(mask), a, b)
  {
    hide SameCells, Smaller;
    var k, l := KeyItems(a), KeyItems(b);
    forall c | 0 <= c < |mask|
      ensures k[..c] == l[..c] <==> SameCells(a[..c], b[..c])
      ensures ItemLess(mask[c], k[c], l[c])
              <==> if mask[c] < 0 then Smaller(b[c], a[c]) else Smaller(a[c], b[c])
    {
      assert k[..c] == KeyItems(a[..c]) && l[..c] == KeyItems(b[..c]);
      KeyItemsSame(a[..c], b[..c]);
      ItemMeans(a[c], b[c]);
      ItemMeans(b[c], a[c]);
    }
  }

  lemma KeyOfItems(row: Row, cols: seq<nat>)
    requires forall i :: 0 <= i < |cols| ==> cols[i] < |row|
    ensures KeyOf(row, cols) == KeyItems(ItemsOf(row, cols))
  {
  }

  /** Two rows have the same key if and only if their cells in the key columns have equal values. */
  lemma SameKey(cols: seq<nat>, a: Row, b: Row)
    requires forall i :: 0 <= i < |cols| ==> cols[i] < |a| && cols[i] < |b|
    ensures KeyOf(a, cols) == KeyOf(b, cols) <==> forall i :: 0 <= i < |cols| ==> SameValue(a[cols[i]], b[cols[i]])
    ensures KeyOf(a, cols) == KeyOf(b, cols) <==> SameCells(ItemsOf(a, cols), ItemsOf(b, cols))
  {
    hide SameValue;
    KeyOfItems(a, cols);
    KeyOfItems(b, cols);
    KeyItemsSame(ItemsOf(a, cols), ItemsOf(b, cols));
    forall i | 0 <= i < |cols|
      ensures SameValue(a[cols[i]], b[cols[i]]) <==> SameValue(ItemsOf(a, cols)[i], ItemsOf(b, cols)[i])
    {
    }
  }

  /** The key of one row is less than that of another if and only if its cells come first, in the signed order. */
  lemma KeyBefore(cols: seq<nat>, mask: seq<int>, a: Row, b: Row)
    requires |mask| == |cols| && forall i :: 0 <= i < |cols| ==> cols[i] < |a| && cols[i] < |b|
    ensures LexLess(mask, KeyOf(a, cols), KeyOf(b, cols))
            <==> CellsBefore(Signs(mask), ItemsOf(a, cols), ItemsOf(b, cols))
  {
    KeyOfItems(a, cols);
    KeyOfItems(b, cols);
    KeyItemsBefore(mask, ItemsOf(a, cols), ItemsOf(b, cols));
  }
}
