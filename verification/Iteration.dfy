/** Walking an index in key order, and the lookups that start a walk. */
module Iteration {
  import opened Types
  import opened KeyOrder
  import opened OrderedMap
  import opened Buckets
  import opened IndexSpec
  import opened TableSpec
  import opened CellOrder
  import opened TableRuns
  import opened Walks
  import opened Table

  /** `TableIndex::ConstIterator`; a null `tableIndex` marks the end. */
  class ConstIterator {
    const source: TableIndex
    var indexIt: nat
    var indexEnd: nat
    var rowIt: nat
    var rowItEnd: nat
    var tableIndex: TableIndex?

    /** The index has not been changed under the iterator. */
    ghost predicate Valid()
      reads this, source
    {
      && NoEmptyBucket(source.indexMap)
      && indexIt <= indexEnd == |source.indexMap|
      && (tableIndex == null <==> indexIt == indexEnd)
      && (tableIndex == null ==> rowIt == rowItEnd)
      && (tableIndex != null ==> tableIndex == source && rowIt < rowItEnd == |source.indexMap[indexIt].val|)
    }

    /** The row numbers still to come, the current one first. */
    ghost function Rest(): seq<nat>
      requires Valid()
      reads this, source
    {
      if tableIndex == null then []
      else source.indexMap[indexIt].val[rowIt..] + Flatten(source.indexMap, indexIt + 1)
    }

    constructor (source: TableIndex, indexIt: nat)
      requires NoEmptyBucket(source.indexMap) && indexIt <= |source.indexMap|
      ensures Valid() && this.source == source && Rest() == Flatten(source.indexMap, indexIt)
    {
      this.source, this.indexIt, indexEnd := source, indexIt, |source.indexMap|;
      rowIt := 0;
      if indexIt != |source.indexMap| {
        rowItEnd, tableIndex := |source.indexMap[indexIt].val|, source;
      } else {
        rowItEnd, tableIndex := 0, null;
      }
      new;
    }

    /** `operator++`: the next row of the bucket, else the first row of the next bucket, else the end. */
    method Next()
      requires Valid()
      modifies this
      ensures Valid()
      ensures Rest() == if old(Rest()) == [] then [] else old(Rest())[1..]
    {
      hide Flatten;
      if tableIndex != null {
        NextRow(source.indexMap, indexIt, rowIt);
      }
      if rowIt != rowItEnd {
        rowIt := rowIt + 1;
      }
      if rowIt == rowItEnd {
        if indexIt != indexEnd {
          indexIt := indexIt + 1;
          if indexIt != indexEnd {
            rowIt := 0;
            rowItEnd := |source.indexMap[indexIt].val|;
          } else {
            tableIndex := null;
          }
        } else {
          tableIndex := null;
        }
      }
    }

    /** The row number that `operator[]` passes to `GetCellValue`; `None` at the end. */
    method Current() returns (row: Option<nat>)
      requires Valid()
      ensures row == if Rest() == [] then None else Some(Rest()[0])
    {
      if tableIndex == null || rowIt == rowItEnd {
        return None;
      }
      return Some(source.indexMap[indexIt].val[rowIt]);
    }
  }

  /** `operator==` on iterators of one index: true exactly when the same rows are still to come. */
  method Equal(a: ConstIterator, b: ConstIterator) returns (eq: bool)
    requires a.Valid() && b.Valid() && a.source == b.source
    ensures eq <==> a.indexIt == b.indexIt && (a.tableIndex == null || a.rowIt == b.rowIt)
    ensures eq ==> a.Rest() == b.Rest()
    ensures b.Rest() == [] ==> (eq <==> a.Rest() == [])
  {
    eq := (a.tableIndex == null && b.tableIndex == null) || (a.indexIt == b.indexIt && a.rowIt == b.rowIt);
  }

  method Begin(index: TableIndex) returns (it: ConstIterator)
    requires NoEmptyBucket(index.indexMap)
    ensures fresh(it) && it.Valid() && it.source == index && it.Rest() == Flatten(index.indexMap, 0)
  {
    it := new ConstIterator(index, 0);
  }

  method End(index: TableIndex) returns (it: ConstIterator)
    requires NoEmptyBucket(index.indexMap)
    ensures fresh(it) && it.Valid() && it.source == index && it.Rest() == []
  {
    it := new ConstIterator(index, |index.indexMap|);
  }

  /** The usual loop: `for (; it != end; ++it)`. It terminates and sees the rest of the rows in order. */
  method Walk(it: ConstIterator) returns (seen: seq<nat>)
    requires it.Valid()
    modifies it
    ensures it.Valid() && it.Rest() == [] && seen == old(it.Rest())
  {
    hide Flatten, NoEmptyBucket, ConstIterator.Rest, ConstIterator.Valid;
    NoneEmpty(it);
    seen := [];
    var end := End(it.source);
    var done := Equal(it, end);
    while !done
      invariant it.Valid() && end.Valid() && end.source == it.source && end.Rest() == [] && fresh(end)
      invariant seen + it.Rest() == old(it.Rest())
      invariant done <==> it.Rest() == []
      decreases |it.Rest()|
    {
      var row := it.Current();
      seen := seen + [row.value];
      it.Next();
      done := Equal(it, end);
    }
  }

  lemma NoneEmpty(it: ConstIterator)
    requires it.Valid()
    ensures NoEmptyBucket(it.source.indexMap)
  {
  }

  // Lookups

  /** `IndexKeyFrom` accepts at least as many arguments as there are columns, and at most 63. */
  predicate KeyArgs(index: TableIndex, vargs: seq<Dyn>) {
    |index.columnNums| <= |vargs| <= MAX_KEY_SIZE
  }

  function ArgCells(vargs: seq<Dyn>): seq<Data> {
    seq(|vargs|, i requires 0 <= i < |vargs| => vargs[i].data)
  }

  function KeyFrom(vargs: seq<Dyn>): Key {
    KeyItems(ArgCells(vargs))
  }

  /** Arguments carry the types of the indexed columns; the source does not convert them. */
  predicate ArgsFit(index: TableIndex, vargs: seq<Dyn>) {
    |index.columnNums| == |index.mask| && (KeyArgs(index, vargs) ==> KeyTyped(index.mask, KeyFrom(vargs)))
  }

  /** The row has the value of the argument in each of the columns. */
  predicate HoldsArguments(row: Row, cols: seq<nat>, vargs: seq<Dyn>)
    requires |cols| <= |vargs| && forall c :: 0 <= c < |cols| ==> cols[c] < |row|
  {
    forall c :: 0 <= c < |cols| ==> SameValue(row[cols[c]], vargs[c].data)
  }

  /** A key of arguments has an entry if and only if some row has, in each indexed column, the value of the argument. */
  lemma ArgumentsFound(s: State, i: nat, vargs: seq<Dyn>)
    requires WellFormed(s) && Exact(s) && i < |s.indexes| && KeyTyped(s.indexes[i].mask, KeyFrom(vargs))
    ensures
      var idx := s.indexes[i];
      |idx.cols| <= |vargs| && forall x, c :: 0 <= x < |s.rows| && 0 <= c < |idx.cols| ==> idx.cols[c] < |s.rows[x]|
    ensures
      var idx := s.indexes[i];
      Find(idx.mask, idx.entries, KeyFrom(vargs)).Some?
      <==> exists x :: 0 <= x < |s.rows| && HoldsArguments(s.rows[x], idx.cols, vargs)
  {
    hide HoldsArguments, SameCells, Exact, CellsBefore, Flatten, LexLess;
    LookupCells(s, i, ArgCells(vargs));
    var idx := s.indexes[i];
    forall x | 0 <= x < |s.rows|
      ensures forall c :: 0 <= c < |idx.cols| ==> idx.cols[c] < |s.rows[x]|
    {
      assert RowTyped(s.rows[x], s.columns);
    }
    forall x | 0 <= x < |s.rows|
      ensures SameCells(ItemsOf(s.rows[x], idx.cols), ArgCells(vargs)[..|idx.cols|])
              <==> HoldsArguments(s.rows[x], idx.cols, vargs)
    {
      SameArgCells(s.rows[x], idx.cols, vargs);
    }
  }

  lemma SameArgCells(row: Row, cols: seq<nat>, vargs: seq<Dyn>)
    requires |cols| <= |vargs| && forall c :: 0 <= c < |cols| ==> cols[c] < |row|
    ensures SameCells(ItemsOf(row, cols), ArgCells(vargs)[..|cols|]) <==> HoldsArguments(row, cols, vargs)
  {
    hide SameValue;
    var a, b := ItemsOf(row, cols), ArgCells(vargs)[..|cols|];
    forall c | 0 <= c < |cols|
      ensures SameValue(a[c], b[c]) <==> SameValue(row[cols[c]], vargs[c].data)
    {
    }
  }

  method IndexKeyFrom(index: TableIndex, vargs: seq<Dyn>) returns (key: Option<Key>)
    ensures key == if KeyArgs(index, vargs) then Some(KeyFrom(vargs)) else None
  {
    if |vargs| < |index.columnNums| || |vargs| > MAX_KEY_SIZE {
      return None;
    }
    var k: Key := [];
    var it := 0;
    while it < |vargs|
      invariant 0 <= it <= |vargs| && k == KeyFrom(vargs[..it])
    {
      k := k + [MakeKeyItem(vargs[it].data)];
      it := it + 1;
    }
    assert vargs[..it] == vargs;
    return Some(k);
  }

  ghost predicate Searchable(index: TableIndex, vargs: seq<Dyn>)
    reads index
  {
    Ascending(index.mask, index.indexMap) && NoEmptyBucket(index.indexMap) && ArgsFit(index, vargs)
  }

  /** The lookup is answered: the index refers to a table and the arguments make a key. */
  predicate Answered(index: TableIndex, vargs: seq<Dyn>)
    reads index
  {
    index.referToTable && KeyArgs(index, vargs)
  }

  method GetLower(index: TableIndex, than: seq<Dyn>) returns (it: ConstIterator)
    requires Searchable(index, than)
    ensures fresh(it) && it.Valid() && it.source == index
    ensures it.Rest() == if Answered(index, than)
                         then Flatten(index.indexMap, LowerBound(index.mask, index.indexMap, KeyFrom(than))) else []
  {
    if index.referToTable {
      var key := IndexKeyFrom(index, than);
      if key == None {
        it := End(index);
        return;
      }
      var pos := LowerBound(index.mask, index.indexMap, key.value);
      if pos != |index.indexMap| {
        it := new ConstIterator(index, pos);
        return;
      }
    }
    it := End(index);
  }

  method GetGrater(index: TableIndex, than: seq<Dyn>) returns (it: ConstIterator)
    requires Searchable(index, than)
    ensures fresh(it) && it.Valid() && it.source == index
    ensures it.Rest() == if Answered(index, than)
                         then Flatten(index.indexMap, UpperBound(index.mask, index.indexMap, KeyFrom(than))) else []
  {
    if index.referToTable {
      var key := IndexKeyFrom(index, than);
      if key == None {
        it := End(index);
        return;
      }
      var pos := UpperBound(index.mask, index.indexMap, key.value);
      if pos != |index.indexMap| {
        it := new ConstIterator(index, pos);
        return;
      }
    }
    it := End(index);
  }

  method GetEqual(index: TableIndex, with_: seq<Dyn>) returns (it: ConstIterator)
    requires Searchable(index, with_)
    ensures fresh(it) && it.Valid() && it.source == index
    ensures it.Rest() == if Answered(index, with_) && Find(index.mask, index.indexMap, KeyFrom(with_)).Some?
                         then Flatten(index.indexMap, LowerBound(index.mask, index.indexMap, KeyFrom(with_))) else []
  {
    if index.referToTable {
      var key := IndexKeyFrom(index, with_);
      if key == None {
        it := End(index);
        return;
      }
      var pos := Find(index.mask, index.indexMap, key.value);
      if pos.Some? {
        it := new ConstIterator(index, pos.value);
        return;
      }
    }
    it := End(index);
  }

  /** Starts where `GetLower` starts. */
  method GetLowerOrEqual(index: TableIndex, than: seq<Dyn>) returns (it: ConstIterator)
    requires Searchable(index, than)
    ensures fresh(it) && it.Valid() && it.source == index
    ensures it.Rest() == if Answered(index, than)
                         then Flatten(index.indexMap, LowerBound(index.mask, index.indexMap, KeyFrom(than))) else []
  {
    hide Flatten, Ascending, KeyTyped, NoEmptyBucket, ConstIterator.Valid, ConstIterator.Rest;
    it := GetEqual(index, than);
    var end := End(index);
    var none := Equal(it, end);
    if Answered(index, than) && Find(index.mask, index.indexMap, KeyFrom(than)).Some? {
      FlattenNonEmpty(index.indexMap, LowerBound(index.mask, index.indexMap, KeyFrom(than)));
    }
    if none {
      it := GetLower(index, than);
    }
  }

  /** Also starts where `GetLower` starts. */
  method GetGraterOrEqual(index: TableIndex, than: seq<Dyn>) returns (it: ConstIterator)
    requires Searchable(index, than)
    ensures fresh(it) && it.Valid() && it.source == index
    ensures it.Rest() == if Answered(index, than)
                         then Flatten(index.indexMap, LowerBound(index.mask, index.indexMap, KeyFrom(than))) else []
  {
    hide Flatten, Ascending, KeyTyped, NoEmptyBucket, ConstIterator.Valid, ConstIterator.Rest;
    it := GetEqual(index, than);
    var end := End(index);
    var none := Equal(it, end);
    if Answered(index, than) {
      BoundsMeet(index.mask, index.indexMap, KeyFrom(than));
      if Find(index.mask, index.indexMap, KeyFrom(than)).Some? {
        FlattenNonEmpty(index.indexMap, LowerBound(index.mask, index.indexMap, KeyFrom(than)));
      }
    }
    if none {
      it := GetGrater(index, than);
    }
  }
}
