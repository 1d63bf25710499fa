/** `SharedTable` and the `TableIndex` objects that it notifies, with the reference-counted strings of its cells. */
module Table {
  import opened Types
  import opened KeyOrder
  import opened Comparators
  import opened ComparatorTable
  import opened OrderedMap
  import opened Buckets
  import opened IndexSpec
  import opened TableSpec
  import opened RefCounts
  import opened CellOrder
  import opened Walks

  /** All live string objects with their counts. */
  class StringHeap {
    var counts: Counts
    var nextAddr: nat

    ghost predicate Valid()
      reads this
    {
      forall r :: r in counts ==> counts[r] > 0 && r.addr < nextAddr
    }

    constructor ()
      ensures Valid() && counts == map[]
    {
      counts, nextAddr := map[], 0;
    }

    /** `RefCounted::IncRef` on a live string. */
    method IncRef(d: Data)
      requires Valid() && (d.Str? ==> d.ref in counts)
      modifies this
      ensures Valid() && counts == Inc(old(counts), d)
    {
      if d.Str? {
        counts := counts[d.ref := counts[d.ref] + 1];
      }
    }

    /** `RefCounted::DecRef` on a live string, which is deleted at zero. */
    method DecRef(d: Data)
      requires Valid() && (d.Str? ==> d.ref in counts)
      modifies this
      ensures Valid() && counts == Dec(old(counts), d)
    {
      if d.Str? {
        if counts[d.ref] == 1 {
          counts := counts - {d.ref};
        } else {
          counts := counts[d.ref := counts[d.ref] - 1];
        }
      }
    }

    /** A new string object, created with count 1. */
    method NewString(text: string) returns (r: StringRef)
      requires Valid()
      modifies this
      ensures Valid() && r !in old(counts) && r.text == text && counts == Inc(old(counts), Str(r))
    {
      r := StringRef(nextAddr, text);
      nextAddr := nextAddr + 1;
      counts := counts[r := 1];
    }
  }

  class TableIndex {
    const sharedTable: SharedTable
    const columnNums: seq<nat>
    const comp: IndexCompare
    const mask: seq<int>         // the signed types that `comp` was assembled from
    var indexMap: IndexMap
    var referToTable: bool

    function State(): IndexState
      reads this
    {
      IndexState(columnNums, mask, indexMap)
    }

    /** The map is ordered by the comparator of the index. */
    ghost predicate Ordered()
      reads this, comp, comp.fcomp
    {
      comp.Valid() && comp.Appended() == Parts(mask) && Ascending(mask, indexMap)
    }

    /** The constructor builds the index from the rows of the table. */
    constructor (table: SharedTable, columnNums: seq<nat>, comp: IndexCompare, mask: seq<int>)
      requires Fits(table.columns, columnNums, mask) && RowsTyped(table.storage, table.columns)
      requires table.rows == |table.storage|
      requires comp.Valid() && comp.Appended() == Parts(mask)
      ensures sharedTable == table && this.comp == comp && !referToTable
      ensures State() == BuildIndex(table.columns, table.storage, columnNums, mask)
      ensures Ordered()
    {
      sharedTable, this.columnNums, this.comp, this.mask := table, columnNums, comp, mask;
      indexMap, referToTable := [], false;
      new;
      Build();
    }

    /** The mask of an index definition: descending columns have the negated type. */
    static function SignedTypes(columns: seq<int>, columnNums: seq<nat>, minus: seq<bool>): seq<int>
      requires |minus| == |columnNums| && forall i :: 0 <= i < |columnNums| ==> columnNums[i] < |columns|
    {
      seq(|columnNums|, i requires 0 <= i < |columnNums| =>
        if minus[i] then -columns[columnNums[i]] else columns[columnNums[i]])
    }

    /** `TableIndex::Create`: succeeds exactly when every indexed column has a registered type. */
    static method Create(map_: ComparatorsMap, table: SharedTable, columnNums: seq<nat>, minus: seq<bool>)
      returns (index: TableIndex?)
      requires table.Valid()
      requires map_.Valid() && forall m :: m in map_.done <==> Partial(m)
      requires |minus| == |columnNums| <= MAX_KEY_SIZE
      requires forall i :: 0 <= i < |columnNums| ==> columnNums[i] < |table.columns|
      ensures index != null <==> forall i :: 0 <= i < |columnNums| ==> Registered(table.columns[columnNums[i]])
      ensures index != null ==>
                && fresh(index) && index.sharedTable == table && index.Ordered()
                && index.mask == SignedTypes(table.columns, columnNums, minus)
                && Fits(table.columns, columnNums, index.mask)
                && index.State() == BuildIndex(table.columns, table.storage, columnNums, index.mask)
                && CellSorted(table.storage, columnNums, minus, Flatten(index.indexMap, 0))
    {
      hide IndexSpec.Build, KeysOfRows, Ascending, Parts, MaskText, CellSorted, Flatten;
      var types := SignedTypes(table.columns, columnNums, minus);
      assert forall i :: 0 <= i < |types| ==> Code(types[i]) && Abs(types[i]) == table.columns[columnNums[i]];
      var mask := ColumnTexts(types);
      var comp := new IndexCompare();
      var ok, error := GetComparator(map_, mask, comp, types);
      if !ok {
        return null;
      }
      assert Fits(table.columns, columnNums, types);
      index := new TableIndex(table, columnNums, comp, types);
      BuiltSorted(table.columns, table.storage, columnNums, types);
      SignsOfTypes(table.columns, columnNums, minus);
    }

    method MakeKey(data: Row) returns (key: Key)
      requires forall i :: 0 <= i < |columnNums| ==> columnNums[i] < |data|
      ensures key == KeyOf(data, columnNums)
    {
      key := [];
      var col := 0;
      while col < |columnNums|
        invariant 0 <= col <= |columnNums| && key == KeyOf(data, columnNums[..col])
      {
        key := key + [MakeKeyItem(data[columnNums[col]])];
        col := col + 1;
      }
      assert columnNums[..col] == columnNums;
    }

    /** `BuildIndex` */
    method Build()
      requires Fits(sharedTable.columns, columnNums, mask) && RowsTyped(sharedTable.storage, sharedTable.columns)
      requires sharedTable.rows == |sharedTable.storage| && indexMap == []
      modifies this`indexMap
      ensures State() == BuildIndex(sharedTable.columns, sharedTable.storage, columnNums, mask)
    {
      hide IndexSpec.Build, LexLess, KeyTyped;
      ghost var ks := KeysOfRows(sharedTable.columns, sharedTable.storage, columnNums, mask);
      var row := 0;
      BuildStart(mask);
      while row < sharedTable.rows
        invariant 0 <= row <= sharedTable.rows
        invariant indexMap == IndexSpec.Build(mask, ks[..row])
      {
        assert RowTyped(sharedTable.storage[row], sharedTable.columns);
        var key := MakeKey(sharedTable.storage[row]);
        assert key == ks[row];
        BuildMore(mask, ks, row);
        var p := LowerBound(mask, indexMap, key);
        indexMap := Touch(mask, indexMap, key);
        indexMap := SetValue(indexMap, p, indexMap[p].val + [row]);
        row := row + 1;
      }
      assert ks[..row] == ks;
    }

    /** `TableIndex::NotifyRowInsert` */
    method NotifyRowInsert(data: Row, row: nat, incremental: bool)
      requires forall i :: 0 <= i < |columnNums| ==> columnNums[i] < |data|
      requires Ascending(mask, indexMap) && StoredKey(mask, KeyOf(data, columnNums))
      modifies this`indexMap
      ensures indexMap == NotifyInsert(mask, old(indexMap), KeyOf(data, columnNums), row, incremental)
    {
      var key := MakeKey(data);
      var p := LowerBound(mask, indexMap, key);
      indexMap := Touch(mask, indexMap, key);
      if incremental {
        ghost var m1 := indexMap;
        var index := 0;
        while index < |indexMap|
          invariant 0 <= index <= |indexMap| == |m1|
          invariant forall j :: 0 <= j < index ==> indexMap[j] == RaiseAll(m1, row)[j]
          invariant forall j :: index <= j < |m1| ==> indexMap[j] == m1[j]
        {
          var bucket := RaiseBucket(indexMap[index].val, row);
          indexMap := SetValue(indexMap, index, bucket);
          index := index + 1;
        }
        assert indexMap == RaiseAll(m1, row);
      }
      var bucket := indexMap[p].val + [row];
      indexMap := SetValue(indexMap, p, if incremental then StableSort(bucket) else bucket);
    }

    static method RaiseBucket(b: Bucket, row: nat) returns (r: Bucket)
      ensures r == Raise(b, row)
    {
      r := b;
      var reference := LowerBoundOf(b, row);
      while reference < |b|
        invariant LowerBoundOf(b, row) <= reference <= |b| == |r|
        invariant forall i :: 0 <= i < reference ==> r[i] == Raise(b, row)[i]
        invariant forall i :: reference <= i < |b| ==> r[i] == b[i]
      {
        r := r[reference := r[reference] + 1];
        reference := reference + 1;
      }
    }

    static method LowerBucket(b: Bucket, row: nat) returns (r: Bucket)
      ensures r == Lower(b, row)
    {
      r := b;
      var reference := LowerBoundOf(b, row);
      while reference < |b|
        invariant LowerBoundOf(b, row) <= reference <= |b| == |r|
        invariant forall i :: 0 <= i < reference ==> r[i] == Lower(b, row)[i]
        invariant forall i :: reference <= i < |b| ==> r[i] == b[i]
      {
        r := r[reference := Decrement(r[reference])];
        reference := reference + 1;
      }
    }

    /** `TableIndex::NotifyRowDelete`; the row must be found under its key. */
    method NotifyRowDelete(data: Row, row: nat, incremental: bool)
      requires forall i :: 0 <= i < |columnNums| ==> columnNums[i] < |data|
      requires Ascending(mask, indexMap) && StoredKey(mask, KeyOf(data, columnNums))
      requires Present(mask, indexMap, KeyOf(data, columnNums), row)
      modifies this`indexMap
      ensures indexMap == NotifyDelete(mask, old(indexMap), KeyOf(data, columnNums), row, incremental)
    {
      var key := MakeKey(data);
      var p := LowerBound(mask, indexMap, key);
      var item := IndexOf(indexMap[p].val, row);
      indexMap := SetValue(indexMap, p, indexMap[p].val[..item] + indexMap[p].val[item + 1..]);
      if indexMap[p].val == [] {
        indexMap := EraseAt(indexMap, p);
      }
      if incremental {
        ghost var m1 := indexMap;
        var index := 0;
        while index < |indexMap|
          invariant 0 <= index <= |indexMap| == |m1|
          invariant forall j :: 0 <= j < index ==> indexMap[j] == LowerAll(m1, row)[j]
          invariant forall j :: index <= j < |m1| ==> indexMap[j] == m1[j]
        {
          var bucket := LowerBucket(indexMap[index].val, row);
          indexMap := SetValue(indexMap, index, bucket);
          index := index + 1;
        }
        assert indexMap == LowerAll(m1, row);
      }
    }

    method NotifyReferToTable(is_: bool)
      modifies this`referToTable
      ensures referToTable == is_
    {
      referToTable := is_;
    }

    method IsIndexedColumn(colNum: nat) returns (found: bool)
      ensures found <==> colNum in columnNums
    {
      var i := 0;
      while i < |columnNums| && columnNums[i] != colNum
        invariant 0 <= i <= |columnNums| && colNum !in columnNums[..i]
      {
        i := i + 1;
      }
      assert columnNums[..|columnNums|] == columnNums;
      found := i != |columnNums|;
    }
  }

  /** The default cell of a column: zero, the current time, or an empty string. */
  predicate IsDefault(t: int, d: Data, now: nat) {
    match d
    case I64(i) => t == INTEGER && i == 0
    case F64(f) => t == FLOAT && f == 0.0
    case Str(r) => t == STRING && r.text == ""
    case U64(u) => (t == DATE_TIME && u == now) || (t in {UNSIGNED_INTEGER, BOOL} && u == 0)
  }

  /** The row holds the arguments, and defaults where there are none. */
  predicate RowWritten(columns: seq<int>, vargs: seq<Dyn>, now: nat, row: Row) {
    && |row| == |columns|
    && forall c :: 0 <= c < |columns| ==>
         if c < |vargs| then row[c] == vargs[c].data else IsDefault(columns[c], row[c], now)
  }

  class SharedTable {
    const heap: StringHeap
    var rows: nat
    var columns: seq<int>
    var storage: seq<Row>
    var indexSet: seq<TableIndex>

    ghost function IndexStates(): (states: seq<IndexState>)
      reads this, indexSet
      ensures |states| == |indexSet| && forall i :: 0 <= i < |states| ==> states[i] == indexSet[i].State()
    {
      seq(|indexSet|, i requires 0 <= i < |indexSet| reads this, indexSet => indexSet[i].State())
    }

    /** The table as a value. */
    ghost function Abs(): State
      reads this, heap, indexSet
    {
      State(columns, storage, IndexStates(), heap.counts)
    }

    ghost predicate Valid()
      reads this, heap, indexSet
    {
      && rows == |storage| && heap.Valid()
      && WellFormed(Abs()) && Counted(Abs())
      && (forall c :: 0 <= c < |columns| ==> ColumnType(columns[c]))
      && (forall i :: 0 <= i < |indexSet| ==> indexSet[i].sharedTable == this)
      && (forall i, j :: 0 <= i < j < |indexSet| ==> indexSet[i] != indexSet[j])
    }

    /** The callers hold every string they pass in. */
    ghost predicate Held(vargs: seq<Dyn>)
      reads this, heap
    {
      forall i :: 0 <= i < |vargs| && vargs[i].data.Str? ==>
        HeldBy(storage, vargs[i].data.ref) < Count(heap.counts, vargs[i].data.ref)
    }

    predicate ArgsTyped(vargs: seq<Dyn>)
    {
      forall i :: 0 <= i < |vargs| ==> DynOk(vargs[i])
    }

    /** Row `r` is found in every index. */
    ghost predicate Found(r: nat)
      requires Valid()
      reads this, heap, indexSet
    {
      r < rows ==> forall i :: 0 <= i < |indexSet| ==> IndexHas(columns, indexSet[i].State(), storage[r], r)
    }

    constructor (columns: seq<int>, heap: StringHeap)
      requires heap.Valid() && forall c :: 0 <= c < |columns| ==> ColumnType(columns[c])
      ensures Valid() && Abs() == State(columns, [], [], heap.counts) && this.heap == heap
    {
      this.heap, rows, this.columns, storage, indexSet := heap, 0, columns, [], [];
    }

    method Validate(vargs: seq<Dyn>) returns (ok: bool)
      ensures ok == TableSpec.Validate(columns, vargs)
      ensures ok <==> vargs != [] && forall c :: 0 <= c < |columns| && c < |vargs| ==> columns[c] == vargs[c].t
    {
      if |vargs| == 0 {
        return false;
      }
      var size := if |columns| < |vargs| then |columns| else |vargs|;
      var col := 0;
      while col < size
        invariant 0 <= col <= size
        invariant forall c :: 0 <= c < col ==> columns[c] == vargs[c].t
      {
        if columns[col] != vargs[col].t {
          return false;
        }
        col := col + 1;
      }
      return true;
    }

    /** `GetDefault`: the current time for DATE_TIME, a new empty string for STRING, otherwise zero. */
    method GetDefault(t: int, now: nat) returns (d: Data)
      requires heap.Valid() && ColumnType(t)
      modifies heap
      ensures heap.Valid() && HasType(d, t) && heap.counts == Inc(old(heap.counts), d)
      ensures IsDefault(t, d, now)
    {
      match t {
        case 1 => d := I64(0);
        case 3 => d := F64(0.0);
        case 5 => d := U64(now);
        case 7 =>
          var r := heap.NewString("");
          d := Str(r);
        case _ => d := U64(0);
      }
    }

    /** The loop that turns arguments into a row, acquiring each string; missing arguments become defaults. */
    method MakeRow(vargs: seq<Dyn>, now: nat) returns (row: Row)
      requires Valid() && ArgsTyped(vargs) && Held(vargs) && TableSpec.Validate(columns, vargs)
      modifies heap
      ensures heap.Valid()
      ensures ArgsOk(columns, vargs, row) && row == FullRow(columns, vargs, row)
      ensures heap.counts == Acquire(old(heap.counts), row) && RowWritten(columns, vargs, now, row)
    {
      hide Acquire, Inc, FullRow, IndexOk, Counted, IsDefault;
      AcquireNone(heap.counts);
      row := [];
      var col := 0;
      while col < |columns|
        invariant 0 <= col <= |columns| && |row| == col && heap.Valid()
        invariant heap.counts == Acquire(old(heap.counts), row)
        invariant forall c :: 0 <= c < col && c < |vargs| ==> row[c] == vargs[c].data
        invariant forall c :: |vargs| <= c < col ==> HasType(row[c], columns[c]) && IsDefault(columns[c], row[c], now)
      {
        var d;
        if col < |vargs| {
          d := vargs[col].data;
          if d.Str? {
            AcquireCount(old(heap.counts), row, d.ref);
          }
          heap.IncRef(d);
        } else {
          d := GetDefault(columns[col], now);
        }
        AcquireSnoc(old(heap.counts), row, d);
        row := row + [d];
        col := col + 1;
      }
      RowIsFull(columns, vargs, row);
    }

    /** The loop that announces a row to every index. */
    method NotifyInsertAll(data: Row, r: nat, incremental: bool)
      requires forall i :: 0 <= i < |indexSet| ==> IndexOk(columns, indexSet[i].State())
      requires forall i, j :: 0 <= i < j < |indexSet| ==> indexSet[i] != indexSet[j]
      requires RowTyped(data, columns)
      modifies indexSet`indexMap
      ensures forall i :: 0 <= i < |indexSet| ==>
                indexSet[i].State() == IndexInsert(columns, old(indexSet[i].State()), data, r, incremental)
    {
      hide IndexInsert, IndexOk, NotifyInsert, Ascending, StoredKey, RowTyped;
      var index := 0;
      while index < |indexSet|
        invariant 0 <= index <= |indexSet|
        invariant forall i :: 0 <= i < index ==>
                    indexSet[i].State() == IndexInsert(columns, old(indexSet[i].State()), data, r, incremental)
        invariant forall i :: index <= i < |indexSet| ==> indexSet[i].State() == old(indexSet[i].State())
      {
        InsertNotifies(columns, indexSet[index].State(), data, r, incremental);
        indexSet[index].NotifyRowInsert(data, r, incremental);
        index := index + 1;
      }
    }

    /** The loop that withdraws a row from every index. */
    method NotifyDeleteAll(data: Row, r: nat, incremental: bool)
      requires forall i :: 0 <= i < |indexSet| ==> IndexOk(columns, indexSet[i].State())
      requires forall i, j :: 0 <= i < j < |indexSet| ==> indexSet[i] != indexSet[j]
      requires RowTyped(data, columns)
      requires forall i :: 0 <= i < |indexSet| ==> IndexHas(columns, indexSet[i].State(), data, r)
      modifies indexSet`indexMap
      ensures forall i :: 0 <= i < |indexSet| ==>
                indexSet[i].State() == IndexDelete(columns, old(indexSet[i].State()), data, r, incremental)
    {
      hide IndexDelete, IndexHas, IndexOk, NotifyDelete, Ascending, StoredKey, RowTyped, Present;
      var index := 0;
      while index < |indexSet|
        invariant 0 <= index <= |indexSet|
        invariant forall i :: 0 <= i < index ==>
                    indexSet[i].State() == IndexDelete(columns, old(indexSet[i].State()), data, r, incremental)
        invariant forall i :: index <= i < |indexSet| ==> indexSet[i].State() == old(indexSet[i].State())
      {
        DeleteNotifies(columns, indexSet[index].State(), data, r, incremental);
        indexSet[index].NotifyRowDelete(data, r, incremental);
        index := index + 1;
      }
    }

    method AppendRow(vargs: seq<Dyn>, now: nat) returns (ok: bool, ghost defaults: Row)
      requires Valid() && ArgsTyped(vargs) && Held(vargs) && rows + 1 < SIZE_T_COUNT
      modifies this, heap, indexSet
      ensures Valid() && indexSet == old(indexSet)
      ensures ok == TableSpec.Validate(old(columns), vargs)
      ensures ok ==> |storage| == rows == old(rows) + 1 && storage[..old(rows)] == old(storage)
                     && RowWritten(columns, vargs, now, storage[old(rows)])
      ensures ok ==> var op := Append(vargs, defaults);
                     OpOk(old(Abs()), op) && Abs() == Step(old(Abs()), op)
      ensures !ok ==> Abs() == old(Abs())
    {
      hide IndexInsert, IndexDelete, IndexOk, Acquire, Release, Exchange, Cells, Counted, FullRow, ArgsOk, RowWritten;
      defaults := [];
      ok := Validate(vargs);
      if !ok {
        return;
      }
      ghost var s := Abs();
      var row := MakeRow(vargs, now);
      defaults := row;
      ghost var op := Append(vargs, defaults);
      FullRowTyped(columns, vargs, row);
      storage := storage + [row];
      NotifyInsertAll(row, rows, false);
      rows := rows + 1;
      assert IndexStates() == IndexesAfter(s, op);
      StepConserves(s, op);
    }

    method InsertRow(rowNum: nat, vargs: seq<Dyn>, now: nat) returns (ok: bool, ghost defaults: Row)
      requires Valid() && ArgsTyped(vargs) && Held(vargs) && rows + 1 < SIZE_T_COUNT
      modifies this, heap, indexSet
      ensures Valid() && indexSet == old(indexSet)
      ensures ok == (rowNum < old(rows) && TableSpec.Validate(old(columns), vargs))
      ensures ok ==> |storage| == rows == old(rows) + 1 && storage[..rowNum] == old(storage[..rowNum])
                     && storage[rowNum + 1..] == old(storage[rowNum..])
                     && RowWritten(columns, vargs, now, storage[rowNum])
      ensures ok ==> var op := Insert(rowNum, vargs, defaults);
                     OpOk(old(Abs()), op) && Abs() == Step(old(Abs()), op)
      ensures !ok ==> Abs() == old(Abs())
    {
      hide IndexInsert, IndexDelete, IndexOk, Acquire, Release, Exchange, Cells, Counted, FullRow, ArgsOk, RowWritten;
      defaults := [];
      ok := Validate(vargs);
      if rowNum >= rows || !ok {
        return false, [];
      }
      ghost var s := Abs();
      var preCache := MakeRow(vargs, now);
      defaults := preCache;
      ghost var op := Insert(rowNum, vargs, defaults);
      FullRowTyped(columns, vargs, preCache);
      storage := storage[..rowNum] + [preCache] + storage[rowNum..];
      NotifyInsertAll(preCache, rowNum, true);
      rows := rows + 1;
      assert IndexStates() == IndexesAfter(s, op);
      StepConserves(s, op);
    }

    method DeleteRow(rowNum: nat) returns (ok: bool)
      requires Valid() && Found(rowNum)
      modifies this, heap, indexSet
      ensures Valid() && indexSet == old(indexSet)
      ensures ok == (rowNum < old(rows))
      ensures ok ==> rows == old(rows) - 1 && storage == old(storage[..rowNum] + storage[rowNum + 1..])
      ensures Abs() == Step(old(Abs()), Delete(rowNum))
    {
      hide RowsTyped, IndexOk, Counted, Found;
      if rowNum >= rows {
        return false;
      }
      RemoveRow(rowNum);
      return true;
    }

    /** `DeleteRow` once its guard has passed. */
    method RemoveRow(rowNum: nat)
      requires Valid() && Found(rowNum) && rowNum < rows
      modifies this, heap, indexSet
      ensures Valid() && indexSet == old(indexSet) && Abs() == Step(old(Abs()), Delete(rowNum))
      ensures rows == old(rows) - 1 && storage == old(storage[..rowNum] + storage[rowNum + 1..])
    {
      hide IndexInsert, IndexDelete, IndexOk, Acquire, Release, Exchange, Cells, Counted, HeldBy, IndexHas, RowTyped;
      ghost var s := Abs();
      ghost var op := Delete(rowNum);
      var cache := storage[rowNum];
      RowAt(storage, columns, rowNum);
      CellsHeld(s, rowNum);
      NotifyDeleteAll(cache, rowNum, true);
      ReleaseRow(cache);
      storage := storage[..rowNum] + storage[rowNum + 1..];
      rows := rows - 1;
      assert IndexStates() == IndexesAfter(s, op);
      StepConserves(s, op);
    }

    /** Releases the cells of a row that the table holds. */
    method ReleaseRow(cache: Row)
      requires heap.Valid() && |cache| == |columns|
      requires forall r :: multiset(cache)[Str(r)] <= Count(heap.counts, r)
      modifies heap
      ensures heap.Valid() && heap.counts == Release(old(heap.counts), cache)
    {
      var col := 0;
      while col < |columns|
        invariant 0 <= col <= |columns| && heap.Valid()
        invariant heap.counts == Release(old(heap.counts), cache[..col])
      {
        var d := cache[col];
        assert cache[..col + 1] == cache[..col] + [d] && cache == cache[..col + 1] + cache[col + 1..];
        if d.Str? {
          ReleaseCount(old(heap.counts), cache[..col], d.ref);
          assert multiset(cache)[d] == multiset(cache[..col])[d] + 1 + multiset(cache[col + 1..])[d];
        }
        heap.DecRef(d);
        assert cache[..col + 1][..col] == cache[..col];
        col := col + 1;
      }
      assert cache[..col] == cache;
    }

    /** The loop of `SetRow`: release the old cell and acquire the new one; defaults release nothing. */
    method ExchangeRow(old_: Row, vargs: seq<Dyn>, now: nat) returns (cache: Row)
      requires heap.Valid() && ArgsTyped(vargs) && TableSpec.Validate(columns, vargs) && |old_| == |columns|
      requires forall c :: 0 <= c < |columns| ==> ColumnType(columns[c])
      requires forall r :: multiset(old_)[Str(r)] <= Count(heap.counts, r)
      requires forall i :: 0 <= i < |vargs| && vargs[i].data.Str? ==>
                 multiset(old_)[vargs[i].data] < Count(heap.counts, vargs[i].data.ref)
      modifies heap
      ensures heap.Valid() && ArgsOk(columns, vargs, cache) && cache == FullRow(columns, vargs, cache)
      ensures RowWritten(columns, vargs, now, cache)
      ensures var n := if |vargs| < |columns| then |vargs| else |columns|;
              heap.counts == Acquire(Exchange(old(heap.counts), old_[..n], cache[..n]), cache[n..])
    {
      hide Exchanged, Acquire, Exchange, Dec, Inc, Count, FullRow, IsDefault;
      cache := old_;
      ExchangedStart(heap.counts, old_, cache);
      ghost var c0 := heap.counts;
      ghost var n := if |vargs| < |columns| then |vargs| else |columns|;
      var col := 0;
      while col < |columns|
        invariant 0 <= col <= |columns| == |cache| && heap.Valid()
        invariant heap.counts == Exchanged(c0, old_, cache, n, col)
        invariant forall c :: 0 <= c < col && c < |vargs| ==> cache[c] == vargs[c].data
        invariant forall c :: |vargs| <= c < col ==>
                    HasType(cache[c], columns[c]) && IsDefault(columns[c], cache[c], now)
        invariant forall c :: col <= c < |columns| ==> cache[c] == old_[c]
      {
        var d;
        if col < |vargs| {
          d := vargs[col].data;
          ExchangedArg(c0, old_, cache, n, col, d);
          heap.DecRef(cache[col]);
          heap.IncRef(d);
        } else {
          d := GetDefault(columns[col], now);
          ExchangedDefault(c0, old_, cache, n, col, d);
        }
        cache := cache[col := d];
        col := col + 1;
      }
      RowIsFull(columns, vargs, cache);
      ExchangedAll(c0, old_, cache, n);
    }

    method SetRow(rowNum: nat, vargs: seq<Dyn>, now: nat) returns (ok: bool, ghost defaults: Row)
      requires Valid() && ArgsTyped(vargs) && Held(vargs) && Found(rowNum)
      modifies this, heap, indexSet
      ensures Valid() && indexSet == old(indexSet)
      ensures ok == (rowNum < old(rows) && TableSpec.Validate(old(columns), vargs))
      ensures ok ==> |storage| == rows == old(rows) && RowWritten(columns, vargs, now, storage[rowNum])
                     && forall x :: 0 <= x < rows && x != rowNum ==> storage[x] == old(storage[x])
      ensures ok ==> var op := TableSpec.SetRow(rowNum, vargs, defaults);
                     OpOk(old(Abs()), op) && Abs() == Step(old(Abs()), op)
      ensures !ok ==> Abs() == old(Abs())
    {
      hide RowsTyped, IndexOk, Counted, Found, Held, Step, OpOk, RowWritten;
      defaults := [];
      ok := Validate(vargs);
      if rowNum >= rows || !ok {
        return false, [];
      }
      defaults := ChangeRow(rowNum, vargs, now);
    }

    /** `SetRow` once its guards have passed. */
    method ChangeRow(rowNum: nat, vargs: seq<Dyn>, now: nat) returns (ghost defaults: Row)
      requires Valid() && ArgsTyped(vargs) && Held(vargs) && Found(rowNum)
      requires rowNum < rows && TableSpec.Validate(columns, vargs)
      modifies this, heap, indexSet
      ensures Valid() && indexSet == old(indexSet)
      ensures |storage| == rows == old(rows) && RowWritten(columns, vargs, now, storage[rowNum])
      ensures forall x :: 0 <= x < rows && x != rowNum ==> storage[x] == old(storage[x])
      ensures var op := TableSpec.SetRow(rowNum, vargs, defaults);
              OpOk(old(Abs()), op) && Abs() == Step(old(Abs()), op)
    {
      hide IndexInsert, IndexDelete, IndexOk, Acquire, Release, Exchange, Cells, Counted, HeldBy, FullRow, ArgsOk, Step,
           IndexHas, RowWritten, RowTyped, OpOk, Accepted, NewRow, CountsAfter;
      ghost var s := Abs();
      var old_ := storage[rowNum];
      CellsHeld(s, rowNum);
      assert RowTyped(old_, columns) && |old_| == |columns| by {
        RowAt(storage, columns, rowNum);
      }
      NotifyDeleteAll(old_, rowNum, false);
      var cache := ExchangeRow(old_, vargs, now);
      defaults := cache;
      ghost var op := TableSpec.SetRow(rowNum, vargs, defaults);
      RowStep(s, rowNum, vargs, cache);
      storage := storage[rowNum := cache];
      NotifyInsertAll(cache, rowNum, false);
      Changed(s, op, Abs());
    }

    /** The loops of `SetCellValue` notify only the indexes that cover the column. */
    method NotifyDeleteCovering(colNum: nat, data: Row, r: nat)
      requires forall i :: 0 <= i < |indexSet| ==> IndexOk(columns, indexSet[i].State())
      requires forall i, j :: 0 <= i < j < |indexSet| ==> indexSet[i] != indexSet[j]
      requires RowTyped(data, columns)
      requires forall i :: 0 <= i < |indexSet| ==> IndexHas(columns, indexSet[i].State(), data, r)
      modifies indexSet`indexMap
      ensures forall i :: 0 <= i < |indexSet| ==>
                indexSet[i].State() == if colNum in indexSet[i].columnNums
                                       then IndexDelete(columns, old(indexSet[i].State()), data, r, false)
                                       else old(indexSet[i].State())
    {
      hide IndexDelete, IndexHas, IndexOk, NotifyDelete, Ascending, StoredKey, RowTyped, Present;
      var index := 0;
      while index < |indexSet|
        invariant 0 <= index <= |indexSet|
        invariant forall i :: 0 <= i < index ==>
                    indexSet[i].State() == if colNum in indexSet[i].columnNums
                                           then IndexDelete(columns, old(indexSet[i].State()), data, r, false)
                                           else old(indexSet[i].State())
        invariant forall i :: index <= i < |indexSet| ==> indexSet[i].State() == old(indexSet[i].State())
      {
        var covers := indexSet[index].IsIndexedColumn(colNum);
        if covers {
          DeleteNotifies(columns, indexSet[index].State(), data, r, false);
          indexSet[index].NotifyRowDelete(data, r, false);
        }
        index := index + 1;
      }
    }

    method NotifyInsertCovering(colNum: nat, data: Row, r: nat)
      requires forall i :: 0 <= i < |indexSet| ==> IndexOk(columns, indexSet[i].State())
      requires forall i, j :: 0 <= i < j < |indexSet| ==> indexSet[i] != indexSet[j]
      requires RowTyped(data, columns)
      modifies indexSet`indexMap
      ensures forall i :: 0 <= i < |indexSet| ==>
                indexSet[i].State() == if colNum in indexSet[i].columnNums
                                       then IndexInsert(columns, old(indexSet[i].State()), data, r, false)
                                       else old(indexSet[i].State())
    {
      hide IndexInsert, IndexOk, NotifyInsert, Ascending, StoredKey, RowTyped;
      var index := 0;
      while index < |indexSet|
        invariant 0 <= index <= |indexSet|
        invariant forall i :: 0 <= i < index ==>
                    indexSet[i].State() == if colNum in indexSet[i].columnNums
                                           then IndexInsert(columns, old(indexSet[i].State()), data, r, false)
                                           else old(indexSet[i].State())
        invariant forall i :: index <= i < |indexSet| ==> indexSet[i].State() == old(indexSet[i].State())
      {
        var covers := indexSet[index].IsIndexedColumn(colNum);
        if covers {
          InsertNotifies(columns, indexSet[index].State(), data, r, false);
          indexSet[index].NotifyRowInsert(data, r, false);
        }
        index := index + 1;
      }
    }

    /** Row and column must both be in range or both out of range: the guard of the source joins its tests with `&&`. */
    method SetCellValue(rowNum: nat, colNum: nat, v: Dyn) returns (ok: bool)
      requires Valid() && DynOk(v) && Held([v]) && Found(rowNum)
      requires rowNum < rows <==> colNum < |columns|
      modifies this, heap, indexSet
      ensures Valid() && indexSet == old(indexSet)
      ensures ok == (rowNum < old(rows) && colNum < |old(columns)| && old(columns)[colNum] == v.t)
      ensures ok ==> rows == old(rows) && storage == old(storage[rowNum := storage[rowNum][colNum := v.data]])
      ensures OpOk(old(Abs()), SetCell(rowNum, colNum, v)) && Abs() == Step(old(Abs()), SetCell(rowNum, colNum, v))
    {
      hide RowsTyped, IndexOk, Counted, Found, Held;
      if rowNum >= rows && colNum >= |columns| {
        return false;
      }
      if columns[colNum] != v.t {
        return false;
      }
      ChangeCell(rowNum, colNum, v);
      return true;
    }

    /** `SetCellValue` once its guards have passed. */
    method ChangeCell(rowNum: nat, colNum: nat, v: Dyn)
      requires Valid() && DynOk(v) && Held([v]) && Found(rowNum)
      requires rowNum < rows && colNum < |columns| && columns[colNum] == v.t
      modifies this, heap, indexSet
      ensures Valid() && indexSet == old(indexSet)
      ensures rows == old(rows) && storage == old(storage[rowNum := storage[rowNum][colNum := v.data]])
      ensures OpOk(old(Abs()), SetCell(rowNum, colNum, v)) && Abs() == Step(old(Abs()), SetCell(rowNum, colNum, v))
    {
      hide IndexInsert, IndexDelete, IndexOk, Cells, Counted, Inc, Dec, HeldBy, IndexHas, RowTyped, DynOk, OpOk,
           Accepted, NewRow, CountsAfter, Step;
      ghost var s := Abs();
      ghost var op := SetCell(rowNum, colNum, v);
      var cache := storage[rowNum];
      assert v == [v][0];
      CellStep(s, rowNum, colNum, v);
      CellSafe(s, rowNum, colNum, v.data);
      NotifyDeleteCovering(colNum, cache, rowNum);
      heap.DecRef(cache[colNum]);
      heap.IncRef(v.data);
      cache := cache[colNum := v.data];
      storage := storage[rowNum := cache];
      NotifyInsertCovering(colNum, cache, rowNum);
      Changed(s, op, Abs());
    }

    method Subscribe(tableIndex: TableIndex)
      requires Valid() && tableIndex.sharedTable == this && IndexOk(columns, tableIndex.State())
      modifies this`indexSet, tableIndex`referToTable
      ensures Valid() && tableIndex.referToTable
      ensures indexSet == if tableIndex in old(indexSet) then old(indexSet) else old(indexSet) + [tableIndex]
    {
      if tableIndex !in indexSet {
        indexSet := indexSet + [tableIndex];
      }
      tableIndex.NotifyReferToTable(true);
    }

    /** The search for a subscribed index. */
    method Position(tableIndex: TableIndex) returns (i: nat)
      ensures i <= |indexSet| && (i < |indexSet| ==> indexSet[i] == tableIndex)
      ensures i == |indexSet| <==> tableIndex !in indexSet
    {
      i := 0;
      while i < |indexSet| && indexSet[i] != tableIndex
        invariant 0 <= i <= |indexSet| && tableIndex !in indexSet[..i]
      {
        i := i + 1;
      }
      assert indexSet[..|indexSet|] == indexSet;
    }

    method UnSubscribe(tableIndex: TableIndex) returns (ghost at: nat)
      requires Valid()
      modifies this, tableIndex`referToTable
      ensures Valid()
      ensures tableIndex in old(indexSet) ==>
                && at < |old(indexSet)| && old(indexSet)[at] == tableIndex && !tableIndex.referToTable
                && indexSet == old(indexSet[..at] + indexSet[at + 1..])
                && Abs() == Step(old(Abs()), Unsubscribe(at))
      ensures tableIndex !in old(indexSet) ==> Abs() == old(Abs())
    {
      hide IndexOk, Counted, RowsTyped, OpOk, Step;
      var i := Position(tableIndex);
      at := i;
      if i == |indexSet| {
        return;
      }
      ghost var s := Abs();
      Unsubscribed(s, i);
      indexSet[i].NotifyReferToTable(false);
      indexSet := indexSet[..i] + indexSet[i + 1..];
      assert IndexStates() == s.indexes[..i] + s.indexes[i + 1..];
    }

    /** `CreateIndex`: a created index is subscribed. */
    method CreateIndex(map_: ComparatorsMap, columnNums: seq<nat>, minus: seq<bool>) returns (index: TableIndex?)
      requires Valid()
      requires map_.Valid() && forall m :: m in map_.done <==> Partial(m)
      requires |minus| == |columnNums| <= MAX_KEY_SIZE
      requires forall i :: 0 <= i < |columnNums| ==> columnNums[i] < |columns|
      modifies this`indexSet
      ensures Valid()
      ensures index != null <==> forall i :: 0 <= i < |columnNums| ==> Registered(columns[columnNums[i]])
      ensures index == null ==> Abs() == old(Abs())
      ensures index != null ==>
                && fresh(index) && index.referToTable && index.Ordered() && index.columnNums == columnNums
                && index.mask == TableIndex.SignedTypes(columns, columnNums, minus)
                && Fits(columns, columnNums, index.mask)
                && Abs() == Step(old(Abs()), TableSpec.Subscribe(columnNums, index.mask))
                && CellSorted(storage, columnNums, minus, Flatten(index.indexMap, 0))
    {
      hide Build, KeysOfRows, Ascending, Cells, Fits, Parts, CellSorted, Flatten;
      index := TableIndex.Create(map_, this, columnNums, minus);
      if index != null {
        ghost var s := Abs();
        Subscribe(index);
        assert IndexStates() == s.indexes + [BuildIndex(columns, storage, columnNums, index.mask)];
      }
    }

    /** `Clear`: all cells are released, all indexes unsubscribed, and the columns dropped. */
    method Clear()
      requires Valid()
      modifies this, heap, indexSet
      ensures Valid() && Abs() == State([], [], [], ReleaseAll(old(heap.counts), old(storage)))
    {
      hide RowsTyped, IndexOk, Counted;
      ReleaseRows();
      EmptyTable(heap.counts);
      var index := 0;
      while index < |indexSet|
        modifies indexSet`referToTable
        invariant 0 <= index <= |indexSet|
      {
        indexSet[index].NotifyReferToTable(false);
        index := index + 1;
      }
      indexSet := [];
      columns, storage, rows := [], [], 0;
      assert IndexStates() == [];
    }

    /** The loops of `Clear` over rows and columns. */
    method ReleaseRows()
      requires Valid()
      modifies heap
      ensures heap.Valid() && heap.counts == ReleaseAll(old(heap.counts), storage)
    {
      hide Cells, Release, IndexOk, Count;
      ghost var s := Abs();
      var rowNum := 0;
      while rowNum < rows
        invariant 0 <= rowNum <= rows && heap.Valid()
        invariant heap.counts == ReleaseAll(s.counts, storage[..rowNum])
      {
        assert storage[..rowNum + 1][..rowNum] == storage[..rowNum];
        forall r
          ensures multiset(storage[rowNum])[Str(r)] <= Count(heap.counts, r)
        {
          RowHeldAfterPrefix(s, rowNum, r);
        }
        ReleaseRow(storage[rowNum]);
        rowNum := rowNum + 1;
      }
      assert storage[..rowNum] == storage;
    }

    /** `Clone`: the cells of the new table are acquired; a full clone holds new strings with the same texts. */
    method Clone(full: bool) returns (result: SharedTable)
      requires Valid()
      modifies heap
      ensures Valid() && fresh(result) && result.heap == heap
      ensures result.rows == rows && result.columns == columns && result.indexSet == []
      ensures heap.counts == AcquireAll(old(heap.counts), result.storage)
      ensures !full ==> result.storage == storage
      ensures full ==> Copied(storage, result.storage, old(heap.counts))
      ensures result.Valid()
    {
      hide Copied, RowTyped, Cells;
      ghost var s := Abs();
      var clones := CloneRows(full);
      ClonesCounted(s, clones);
      result := new SharedTable(columns, heap);
      result.storage, result.rows := clones, rows;
      assert result.IndexStates() == [];
    }

    method CloneRows(full: bool) returns (clones: seq<Row>)
      requires Valid()
      modifies heap
      ensures heap.Valid() && |clones| == rows && RowsTyped(clones, columns)
      ensures heap.counts == AcquireAll(old(heap.counts), clones)
      ensures if full then Copied(storage, clones, old(heap.counts)) else clones == storage
    {
      hide CopiedRow, RowTyped, Cells;
      ghost var s := Abs();
      clones := [];
      var r := 0;
      while r < rows
        modifies heap
        invariant 0 <= r <= rows && |clones| == r && heap.Valid()
        invariant heap.counts == AcquireAll(s.counts, clones) && RowsTyped(clones, columns)
        invariant if full then Copied(storage[..r], clones, s.counts) else clones == storage[..r]
      {
        CloneRowSafe(s, clones, r);
        var row := CloneRow(storage[r], full, s.counts);
        assert (clones + [row])[..r] == clones;
        assert storage[..r + 1] == storage[..r] + [storage[r]];
        clones := clones + [row];
        r := r + 1;
      }
      assert storage[..r] == storage;
    }

    method CloneRow(row: Row, full: bool, ghost before: Counts) returns (clone: Row)
      requires (forall x :: x in before ==> x in heap.counts) && heap.Valid() && RowTyped(row, columns)
      requires forall x :: multiset(row)[Str(x)] <= Count(heap.counts, x)
      modifies heap
      ensures heap.Valid() && RowTyped(clone, columns) && heap.counts == Acquire(old(heap.counts), clone)
      ensures !full ==> clone == row
      ensures full ==> CopiedRow(row, clone, before)
    {
      hide Acquire, Inc, CopiedRow, Count;
      AcquireNone(heap.counts);
      CopiedNone(before);
      clone := [];
      var c := 0;
      while c < |columns|
        invariant 0 <= c <= |columns| && |clone| == c && heap.Valid()
        invariant heap.counts == Acquire(old(heap.counts), clone)
        invariant forall i :: 0 <= i < c ==> HasType(clone[i], columns[i])
        invariant !full ==> clone == row[..c]
        invariant full ==> CopiedRow(row[..c], clone, before)
      {
        LiveCell(heap.counts, old(heap.counts), clone, row, c);
        var d := CloneCell(row[c], full);
        AcquireSnoc(old(heap.counts), clone, d);
        if full {
          CopiedSnoc(row, clone, d, before);
        }
        assert row[..c + 1] == row[..c] + [row[c]];
        clone := clone + [d];
        c := c + 1;
      }
      assert row[..c] == row;
    }

    /** One cell of a clone: a new string with the same text, or one more count on the same string. */
    method CloneCell(d: Data, full: bool) returns (d': Data)
      requires heap.Valid() && (d.Str? ==> d.ref in heap.counts)
      modifies heap
      ensures heap.Valid() && heap.counts == Inc(old(heap.counts), d')
      ensures if full && d.Str? then d'.Str? && d'.ref.text == d.ref.text && d'.ref !in old(heap.counts) else d' == d
    {
      d' := d;
      if d.Str? && full {
        var s := heap.NewString(d.ref.text);
        d' := Str(s);
      } else {
        heap.IncRef(d);
      }
    }

    /** `AppendRowUnsafe`: no index is notified. */
    method AppendRowUnsafe(vargs: Row)
      requires heap.Valid() && rows == |storage| && RowTyped(vargs, columns)
      requires forall i :: 0 <= i < |vargs| && vargs[i].Str? ==> vargs[i].ref in heap.counts
      modifies this`rows, this`storage, heap
      ensures heap.Valid() && rows == |storage| && storage == old(storage) + [vargs]
      ensures heap.counts == Acquire(old(heap.counts), vargs)
    {
      var col := 0;
      while col < |columns|
        modifies heap
        invariant 0 <= col <= |columns| && heap.Valid()
        invariant heap.counts == Acquire(old(heap.counts), vargs[..col])
      {
        if vargs[col].Str? {
          AcquireCount(old(heap.counts), vargs[..col], vargs[col].ref);
        }
        assert vargs[..col + 1][..col] == vargs[..col];
        heap.IncRef(vargs[col]);
        col := col + 1;
      }
      assert vargs[..col] == vargs;
      storage := storage + [vargs];
      rows := rows + 1;
    }

    /** `SetRowUnsafe`: cells are overwritten without releasing or acquiring anything. */
    method SetRowUnsafe(vargs: Row, r: nat)
      requires r < |storage| && |vargs| == |columns| == |storage[r]|
      modifies this`storage
      ensures storage == old(storage)[r := vargs]
    {
      ghost var cells := storage[r];
      var col := 0;
      assert vargs[..col] + cells[col..] == cells;
      while col < |columns|
        invariant 0 <= col <= |columns|
        invariant storage == old(storage)[r := vargs[..col] + cells[col..]]
      {
        assert storage[r] == vargs[..col] + cells[col..];
        assert storage[r][col := vargs[col]] == vargs[..col + 1] + cells[col + 1..];
        storage := storage[r := storage[r][col := vargs[col]]];
        col := col + 1;
      }
      assert vargs[..col] + cells[col..] == vargs;
    }
  }

  /** The signs of the mask are the directions of the definition, column types being positive. */
  lemma SignsOfTypes(columns: seq<int>, columnNums: seq<nat>, minus: seq<bool>)
    requires |minus| == |columnNums| && forall i :: 0 <= i < |columnNums| ==> columnNums[i] < |columns|
    requires forall i :: 0 <= i < |columnNums| ==> Registered(columns[columnNums[i]])
    ensures Signs(TableIndex.SignedTypes(columns, columnNums, minus)) == minus
  {
  }

  /** Cell by cell a clone holds the same datum, or a string that did not exist before with the same text. */
  ghost predicate CopiedRow(from: Row, to: Row, before: Counts) {
    |to| == |from| && forall c :: 0 <= c < |from| ==>
      if from[c].Str? then to[c].Str? && to[c].ref.text == from[c].ref.text && to[c].ref !in before
      else to[c] == from[c]
  }

  ghost predicate Copied(from: seq<Row>, to: seq<Row>, before: Counts) {
    |to| == |from| && forall r :: 0 <= r < |from| ==> CopiedRow(from[r], to[r], before)
  }

  /** The indexes after the withdrawal and the announcement of a changed row are those that the step names. */
  lemma StatesChanged(s: State, op: Op, states: seq<IndexState>)
    requires WellFormed(s) && OpOk(s, op) && Accepted(s, op) && (op.SetRow? || op.SetCell?)
    requires |states| == |s.indexes|
    requires forall i :: 0 <= i < |states| ==>
               states[i] == if op.SetRow? || op.c in s.indexes[i].cols
                            then IndexChange(s.columns, s.indexes[i], s.rows[op.r], NewRow(s, op), op.r)
                            else s.indexes[i]
    ensures states == IndexesAfter(s, op)
  {
    hide IndexChange, NewRow, IndexOk;
  }

  lemma BuildStart(mask: seq<int>)
    ensures IndexSpec.Build(mask, []) == []
  {
  }

  lemma BuildMore(mask: seq<int>, ks: seq<Key>, row: nat)
    requires row < |ks| && forall x :: 0 <= x < |ks| ==> StoredKey(mask, ks[x])
    ensures
      var m := IndexSpec.Build(mask, ks[..row]);
      var m1, p := Touch(mask, m, ks[row]), LowerBound(mask, m, ks[row]);
      p < |m1| && IndexSpec.Build(mask, ks[..row + 1]) == SetValue(m1, p, m1[p].val + [row])
  {
    hide LexLess, KeyTyped;
    assert ks[..row + 1][..row] == ks[..row];
  }

  /** What an index needs for an announcement, and what the announcement does to it. */
  lemma InsertNotifies(columns: seq<int>, idx: IndexState, row: Row, r: nat, incremental: bool)
    requires IndexOk(columns, idx) && RowTyped(row, columns)
    ensures forall i :: 0 <= i < |idx.cols| ==> idx.cols[i] < |row|
    ensures Ascending(idx.mask, idx.entries) && StoredKey(idx.mask, KeyOf(row, idx.cols))
    ensures IndexInsert(columns, idx, row, r, incremental)
            == idx.(entries := NotifyInsert(idx.mask, idx.entries, KeyOf(row, idx.cols), r, incremental))
  {
    hide NotifyInsert, Ascending;
    KeyStored(columns, idx.cols, idx.mask, row);
  }

  lemma DeleteNotifies(columns: seq<int>, idx: IndexState, row: Row, r: nat, incremental: bool)
    requires IndexOk(columns, idx) && RowTyped(row, columns) && IndexHas(columns, idx, row, r)
    ensures forall i :: 0 <= i < |idx.cols| ==> idx.cols[i] < |row|
    ensures Ascending(idx.mask, idx.entries) && StoredKey(idx.mask, KeyOf(row, idx.cols))
    ensures Present(idx.mask, idx.entries, KeyOf(row, idx.cols), r)
    ensures IndexDelete(columns, idx, row, r, incremental)
            == idx.(entries := NotifyDelete(idx.mask, idx.entries, KeyOf(row, idx.cols), r, incremental))
  {
    hide NotifyDelete, Ascending, Present;
    KeyStored(columns, idx.cols, idx.mask, row);
  }

  lemma EmptyTable(counts: Counts)
    ensures var s := State([], [], [], counts); WellFormed(s) && Counted(s)
  {
  }

  lemma Unsubscribed(s: State, i: nat)
    requires WellFormed(s) && Counted(s) && i < |s.indexes|
    ensures OpOk(s, Unsubscribe(i))
    ensures
      var t := State(s.columns, s.rows, s.indexes[..i] + s.indexes[i + 1..], s.counts);
      t == Step(s, Unsubscribe(i)) && WellFormed(t) && Counted(t)
  {
    hide Counted;
    StepConserves(s, Unsubscribe(i));
  }

  /** The state after the notifications of a changed row is the one that the step names. */
  lemma Changed(s: State, op: Op, t: State)
    requires WellFormed(s) && Counted(s) && OpOk(s, op) && Accepted(s, op) && (op.SetRow? || op.SetCell?)
    requires t.columns == s.columns && t.rows == s.rows[op.r := NewRow(s, op)] && t.counts == CountsAfter(s, op)
    requires |t.indexes| == |s.indexes|
    requires forall i :: 0 <= i < |t.indexes| ==>
               t.indexes[i] == if op.SetRow? || op.c in s.indexes[i].cols
                               then IndexChange(s.columns, s.indexes[i], s.rows[op.r], NewRow(s, op), op.r)
                               else s.indexes[i]
    ensures t == Step(s, op) && WellFormed(t) && Counted(t)
  {
    hide IndexChange, NewRow, IndexOk, CountsAfter, Counted, OpOk, Accepted;
    StatesChanged(s, op, t.indexes);
    StepConserves(s, op);
  }

  /** The table holds every string of a row at least as often as the row does. */
  lemma CellsHeld(s: State, r: nat)
    requires Counted(s) && r < |s.rows|
    ensures forall x :: multiset(s.rows[r])[Str(x)] <= HeldBy(s.rows, x) <= Count(s.counts, x)
  {
    forall x
      ensures multiset(s.rows[r])[Str(x)] <= HeldBy(s.rows, x) <= Count(s.counts, x)
    {
      HeldReplace(s.rows, r, s.rows[r], x);
    }
  }

  lemma RowAt(rows: seq<Row>, columns: seq<int>, r: nat)
    requires RowsTyped(rows, columns) && r < |rows|
    ensures RowTyped(rows[r], columns) && |rows[r]| == |columns|
  {
  }

  lemma RowStep(s: State, r: nat, vargs: seq<Dyn>, row: Row)
    requires WellFormed(s) && r < |s.rows| && TableSpec.Validate(s.columns, vargs)
    requires ArgsOk(s.columns, vargs, row) && row == FullRow(s.columns, vargs, row)
    ensures
      var op := TableSpec.SetRow(r, vargs, row);
      var n := if |vargs| < |s.columns| then |vargs| else |s.columns|;
      && OpOk(s, op) && Accepted(s, op) && NewRow(s, op) == row && RowTyped(row, s.columns) && n <= |row|
      && CountsAfter(s, op) == Acquire(Exchange(s.counts, s.rows[r][..n], row[..n]), row[n..])
  {
    hide IndexOk, Acquire, Exchange, ArgsOk;
    FullRowTyped(s.columns, vargs, row);
    RowAt(s.rows, s.columns, r);
  }

  lemma CellStep(s: State, r: nat, c: nat, v: Dyn)
    requires WellFormed(s) && r < |s.rows| && c < |s.columns| && s.columns[c] == v.t
    requires DynOk(v) && ColumnType(s.columns[c])
    ensures
      var op := SetCell(r, c, v);
      && RowTyped(s.rows[r], s.columns) && |s.rows[r]| == |s.columns| && OpOk(s, op) && Accepted(s, op)
      && NewRow(s, op) == s.rows[r][c := v.data] && RowTyped(NewRow(s, op), s.columns)
      && CountsAfter(s, op) == Inc(Dec(s.counts, s.rows[r][c]), v.data)
  {
    hide IndexOk, Inc, Dec;
  }

  /** An overwritten cell is live, and an argument that the caller holds is still live once the cell is released. */
  lemma CellSafe(s: State, r: nat, c: nat, d: Data)
    requires Counted(s) && r < |s.rows| && c < |s.rows[r]|
    requires d.Str? ==> HeldBy(s.rows, d.ref) < Count(s.counts, d.ref)
    ensures s.rows[r][c].Str? ==> s.rows[r][c].ref in s.counts
    ensures d.Str? ==> d.ref in Dec(s.counts, s.rows[r][c])
  {
    CellsHeld(s, r);
    assert s.rows[r][c] in multiset(s.rows[r]);
  }

  /** While a table is cloned its own rows stay live. */
  lemma CloneRowSafe(s: State, clones: seq<Row>, r: nat)
    requires Counted(s) && r < |s.rows| && forall x :: x in s.counts ==> s.counts[x] > 0
    ensures RowTyped(s.rows[r], s.columns) || !WellFormed(s)
    ensures forall x :: multiset(s.rows[r])[Str(x)] <= Count(AcquireAll(s.counts, clones), x)
    ensures forall x :: x in s.counts ==> x in AcquireAll(s.counts, clones)
  {
    CellsHeld(s, r);
    forall x
      ensures Count(s.counts, x) <= Count(AcquireAll(s.counts, clones), x)
    {
      AcquireAllCount(s.counts, clones, x);
    }
    assert forall x :: x in s.counts ==> Count(s.counts, x) > 0;
  }

  lemma AcquireSnoc(c: Counts, row: Row, d: Data)
    ensures Acquire(c, row + [d]) == Inc(Acquire(c, row), d)
  {
    assert (row + [d])[..|row|] == row;
  }

  /** A string that the row holds is still live after some of its cells have been acquired for a clone. */
  lemma LiveCell(now: Counts, before: Counts, clone: Row, row: Row, c: nat)
    requires now == Acquire(before, clone) && c < |row|
    requires forall x :: multiset(row)[Str(x)] <= Count(before, x)
    ensures row[c].Str? ==> row[c].ref in now
    ensures forall x :: x in before ==> x in now
  {
    assert row[c] in multiset(row);
    StillLive(before, clone);
  }

  lemma CopiedNone(before: Counts)
    ensures CopiedRow([], [], before)
  {
  }

  lemma CopiedSnoc(from: Row, to: Row, d: Data, before: Counts)
    requires |to| < |from| && CopiedRow(from[..|to|], to, before)
    requires var o := from[|to|];
             if o.Str? then d.Str? && d.ref.text == o.ref.text && d.ref !in before else d == o
    ensures CopiedRow(from[..|to| + 1], to + [d], before)
  {
  }

  lemma {:induction false} StillLive(c: Counts, row: Row)
    ensures forall x :: x in c ==> x in Acquire(c, row)
  {
    if row != [] {
      StillLive(c, row[..|row|-1]);
    }
  }

  lemma ClonesCounted(s: State, clones: seq<Row>)
    requires Counted(s)
    ensures forall x :: HeldBy(clones, x) <= Count(AcquireAll(s.counts, clones), x)
    ensures forall x :: HeldBy(s.rows, x) <= Count(AcquireAll(s.counts, clones), x)
  {
    forall x
      ensures HeldBy(clones, x) <= Count(AcquireAll(s.counts, clones), x)
      ensures HeldBy(s.rows, x) <= Count(AcquireAll(s.counts, clones), x)
    {
      AcquireAllCount(s.counts, clones, x);
      assert HeldBy(s.rows, x) <= Count(s.counts, x);
    }
  }

  lemma RowHeldAfterPrefix(s: State, n: nat, r: StringRef)
    requires Counted(s) && n < |s.rows|
    ensures multiset(s.rows[n])[Str(r)] <= Count(ReleaseAll(s.counts, s.rows[..n]), r)
  {
    assert HeldBy(s.rows, r) <= Count(s.counts, r);
    CellsAt(s.rows, n);
    assert Cells(s.rows)[Str(r)]
        == Cells(s.rows[..n])[Str(r)] + multiset(s.rows[n])[Str(r)] + Cells(s.rows[n + 1..])[Str(r)];
    ReleaseAllCount(s.counts, s.rows[..n], r);
  }

  lemma Prefix(old_: Row, col: nat, d: Data)
    requires col < |old_|
    ensures multiset(old_)[d] >= multiset(old_[..col])[d] + if old_[col] == d then 1 else 0
  {
    assert old_ == old_[..col] + [old_[col]] + old_[col + 1..];
    assert multiset(old_) == multiset(old_[..col]) + multiset{old_[col]} + multiset(old_[col + 1..]);
  }

  /** The counts when `ExchangeRow` reaches column `col`; only the first `n` columns have arguments. */
  ghost function Exchanged(c0: Counts, old_: Row, cache: Row, n: nat, col: nat): Counts
    requires n <= |old_| == |cache| && col <= |cache|
  {
    var m := if col < n then col else n;
    Acquire(Exchange(c0, old_[..m], cache[..m]), cache[m..col])
  }

  lemma ExchangedStart(c0: Counts, old_: Row, cache: Row)
    requires |old_| == |cache|
    ensures forall n :: 0 <= n <= |old_| ==> Exchanged(c0, old_, cache, n, 0) == c0
  {
  }

  lemma ExchangedAll(c0: Counts, old_: Row, cache: Row, n: nat)
    requires n <= |old_| == |cache|
    ensures Exchanged(c0, old_, cache, n, |cache|) == Acquire(Exchange(c0, old_[..n], cache[..n]), cache[n..])
  {
    assert cache[n..|cache|] == cache[n..];
  }

  /**
   * When column `col` is reached its old string is still live, and an argument that the caller holds is still live
   * after the old cell has been released.
   */
  lemma ExchangedArg(c0: Counts, old_: Row, cache: Row, n: nat, col: nat, d: Data)
    requires col < n <= |old_| == |cache| && cache[col] == old_[col]
    requires forall r :: multiset(old_)[Str(r)] <= Count(c0, r)
    requires d.Str? ==> multiset(old_)[d] < Count(c0, d.ref)
    ensures
      var c := Exchanged(c0, old_, cache, n, col);
      && (cache[col].Str? ==> cache[col].ref in c)
      && (d.Str? ==> d.ref in Dec(c, cache[col]))
      && Inc(Dec(c, cache[col]), d) == Exchanged(c0, old_, cache[col := d], n, col + 1)
  {
    var cache' := cache[col := d];
    assert old_[..col + 1][..col] == old_[..col] && cache'[..col + 1][..col] == cache[..col];
    assert cache[col..col] == [] && cache'[col + 1..col + 1] == [];
    hide Acquire;
    assert Acquire(Exchange(c0, old_[..col], cache[..col]), []) == Exchange(c0, old_[..col], cache[..col]) by {
      AcquireNone(Exchange(c0, old_[..col], cache[..col]));
    }
    AcquireNone(Exchange(c0, old_[..col + 1], cache'[..col + 1]));
    if cache[col].Str? {
      Prefix(old_, col, cache[col]);
      ExchangeCount(c0, old_[..col], cache[..col], cache[col].ref);
    }
    if d.Str? {
      Prefix(old_, col, d);
      ExchangeCount(c0, old_[..col], cache[..col], d.ref);
    }
  }

  lemma AcquireNone(c: Counts)
    ensures Acquire(c, []) == c
  {
  }

  lemma ExchangedDefault(c0: Counts, old_: Row, cache: Row, n: nat, col: nat, d: Data)
    requires n <= col < |cache| == |old_|
    ensures Inc(Exchanged(c0, old_, cache, n, col), d) == Exchanged(c0, old_, cache[col := d], n, col + 1)
  {
    var cache' := cache[col := d];
    assert cache'[..n] == cache[..n] && cache'[n..col + 1][..col - n] == cache[n..col];
  }

  lemma RowIsFull(columns: seq<int>, vargs: seq<Dyn>, row: Row)
    requires |row| == |columns|
    requires forall c :: 0 <= c < |columns| && c < |vargs| ==> row[c] == vargs[c].data
    ensures row == FullRow(columns, vargs, row)
  {
  }
}
