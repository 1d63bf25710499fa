/** `GroupIndex` with its batch and incremental paths, and the builder on top of the incremental one. */
module Grouping {
  import opened Types
  import opened KeyOrder
  import opened OrderedMap
  import opened TableSpec
  import opened RefCounts
  import opened Table
  import opened GroupSpec
  import opened GroupTables

  class GroupIndex {
    const def_: Def
    const groupedTable: SharedTable
    var currentRow: Row
    var indexMap: GroupMap
    var indexKey: Row

    ghost function State(): Grouped
      reads this, groupedTable, groupedTable.heap
    {
      Grouped(indexMap, groupedTable.storage, groupedTable.heap.counts)
    }

    /** The grouped table has the grouping columns with their own types, then one column per aggregator. */
    static function GroupedColumns(d: Def): seq<int>
      requires DefOk(d)
    {
      seq(|d.cols| + |d.aggrs|, c requires 0 <= c < |d.cols| + |d.aggrs| =>
        if c < |d.cols| then d.columns[d.cols[c]] else d.aggrs[c - |d.cols|].t)
    }

    ghost predicate Valid()
      reads this, groupedTable, groupedTable.heap
    {
      && GroupedOk(def_, State()) && groupedTable.heap.Valid()
      && groupedTable.rows == |groupedTable.storage|
      && groupedTable.columns == GroupedColumns(def_)
      && RowsTyped(groupedTable.storage, groupedTable.columns)
      && (forall p :: 0 <= p < |indexMap| ==> RowTyped(RowOf(indexMap[p]), groupedTable.columns))
      && |currentRow| == |def_.cols| + |def_.aggrs|
    }

    constructor (d: Def, grouped: SharedTable)
      requires DefOk(d) && grouped.heap.Valid() && grouped.rows == 0 && grouped.storage == []
      requires grouped.columns == GroupedColumns(d)
      ensures Valid() && def_ == d && groupedTable == grouped && indexMap == []
    {
      def_, groupedTable, indexMap, indexKey := d, grouped, [], [];
      currentRow := seq(|d.cols| + |d.aggrs|, _ => U64(0));
      new;
      assert Items(indexMap) == [] && KeyParts(groupedTable.storage, |d.cols|) == [];
    }

    /** The aggregator loop of `UpdateIndex`. */
    method UpdateResults(results: Row, row: Row) returns (results': Row)
      requires DefOk(def_) && RowTyped(row, def_.columns) && ResultsTyped(def_, results)
      ensures results' == UpdateAll(def_, results, row)
    {
      results' := results;
      var i := 0;
      while i < |def_.aggrs|
        invariant 0 <= i <= |def_.aggrs| == |results'|
        invariant forall j :: 0 <= j < i ==> results'[j] == UpdateAll(def_, results, row)[j]
        invariant forall j :: i <= j < |results'| ==> results'[j] == results[j]
      {
        results' := results'[i := Update(def_.columns, def_.aggrs[i], results'[i], row)];
        i := i + 1;
      }
    }

    /** `UpdateIndex(const Data *)`: true when the key is new. */
    method UpdateGroup(row: Row) returns (isNew: bool)
      requires DefOk(def_) && RowTyped(row, def_.columns) && GroupsOk(def_, indexMap)
      requires indexKey == ItemsOf(row, def_.cols)
      modifies this`indexMap
      ensures isNew == NewKey(def_, old(indexMap), row)
      ensures indexMap == Feed(def_, old(indexMap), row)
    {
      GroupKeyStored(def_, row);
      var k := KeyOf(row, def_.cols);
      FindLookup(def_.mask, indexMap, k);
      var p := LowerBound(def_.mask, indexMap, k);
      if Find(def_.mask, indexMap, k).Some? {
        var results := UpdateResults(indexMap[p].val.results, row);
        indexMap := indexMap[p := Entry(indexMap[p].key, indexMap[p].val.(results := results))];
        return false;
      }
      var results := UpdateResults(Defaults(def_), row);
      indexMap := InsertAt(indexMap, p, k, Group(indexKey, results));
      return true;
    }

    /** The loop that fills `index_key_`. */
    method FillKey(row: Row)
      requires DefOk(def_) && RowTyped(row, def_.columns)
      modifies this`indexKey
      ensures indexKey == ItemsOf(row, def_.cols)
    {
      indexKey := [];
      var col := 0;
      while col < |def_.cols|
        invariant 0 <= col <= |def_.cols| && indexKey == ItemsOf(row, def_.cols[..col])
      {
        indexKey := indexKey + [row[def_.cols[col]]];
        col := col + 1;
      }
      assert def_.cols[..col] == def_.cols;
    }

    /** `MakeRow`: the key cells and the results are copied into the current row. */
    method MakeRow(p: nat)
      requires DefOk(def_) && GroupsOk(def_, indexMap) && p < |indexMap|
      requires |currentRow| == |def_.cols| + |def_.aggrs|
      modifies this`currentRow
      ensures currentRow == RowOf(indexMap[p]) && |currentRow| == |def_.cols| + |def_.aggrs|
      ensures forall c :: 0 <= c < |def_.cols| ==> currentRow[c] == indexMap[p].val.items[c]
      ensures forall j :: 0 <= j < |def_.aggrs| ==> currentRow[|def_.cols| + j] == indexMap[p].val.results[j]
    {
      var n := |def_.cols|;
      var i := 0;
      while i < n
        invariant 0 <= i <= n && |currentRow| == n + |def_.aggrs|
        invariant forall j :: 0 <= j < i ==> currentRow[j] == RowOf(indexMap[p])[j]
      {
        currentRow := currentRow[i := indexMap[p].val.items[i]];
        i := i + 1;
      }
      i := 0;
      while i < |def_.aggrs|
        invariant 0 <= i <= |def_.aggrs| && |currentRow| == n + |def_.aggrs|
        invariant forall j :: 0 <= j < n + i ==> currentRow[j] == RowOf(indexMap[p])[j]
      {
        currentRow := currentRow[n + i := indexMap[p].val.results[i]];
        i := i + 1;
      }
    }

    /** `UpdateIndex(data, types)`: the incremental path. */
    method UpdateIndex(data: Row)
      requires Valid() && RowTyped(data, def_.columns)
      requires forall i :: 0 <= i < |data| && data[i].Str? ==> data[i].ref in groupedTable.heap.counts
      modifies this, groupedTable`rows, groupedTable`storage, groupedTable.heap
      ensures Valid() && State() == FeedRow(def_, old(State()), data)
    {
      hide LexLess, KeyTyped, KeyParts, Items, UpdateAll, Feed, RowOf, GroupedRow;
      ghost var g := State();
      FeedRowOk(def_, g, data);
      FeedRowsTyped(def_, indexMap, data, groupedTable.columns);
      FillKey(data);
      var isNew := UpdateGroup(data);
      if isNew {
        GroupKeyStored(def_, data);
        var p := LowerBound(def_.mask, indexMap, KeyOf(data, def_.cols));
        FoundWhereInserted(def_, g.m, data);
        MakeRow(p);
        NewRowStrings(def_, g.m, data);
        groupedTable.AppendRowUnsafe(currentRow);
      }
    }

    /** `UpdateIndex(src_tbl, row)`: the batch path fills the map only. */
    method UpdateFromTable(row: Row)
      requires DefOk(def_) && RowTyped(row, def_.columns) && GroupsOk(def_, indexMap)
      modifies this`indexMap, this`indexKey
      ensures indexMap == Feed(def_, old(indexMap), row)
    {
      FillKey(row);
      var isNew := UpdateGroup(row);
    }

    /** `Build(src_tbl)`: the table that `Group` returns has one row per group of the source, in key order. */
    method BuildFrom(src: SharedTable)
      requires Valid() && indexMap == [] && src.Valid() && src != groupedTable
      requires src.heap == groupedTable.heap && src.columns == def_.columns
      modifies this, groupedTable`rows, groupedTable`storage, groupedTable.heap
      ensures indexMap == FeedAll(def_, src.storage)
      ensures groupedTable.storage == RowsOf(FeedAll(def_, src.storage)) && groupedTable.rows == |groupedTable.storage|
      ensures IsGroupTable(def_, src.storage, groupedTable.storage)
      ensures groupedTable.heap.counts == AcquireAll(old(groupedTable.heap.counts), groupedTable.storage)
    {
      hide LexLess, KeyTyped, KeyParts, Items, UpdateAll, Feed, RowOf, GroupedRow, GroupedOk, Counted, IsGroupTable;
      GroupedFacts(def_, State());
      GroupTableRight(def_, src.storage);
      assert groupedTable.storage == [];
      if src.rows == 0 {
        assert src.storage == [];
        return;
      }
      CollectGroups(src);
      FillTable(src.Abs());
    }

    /** The loop over the source rows. */
    method CollectGroups(src: SharedTable)
      requires DefOk(def_) && indexMap == [] && src.rows == |src.storage| && RowsTyped(src.storage, def_.columns)
      modifies this`indexMap, this`indexKey
      ensures indexMap == FeedAll(def_, src.storage)
    {
      hide LexLess, KeyTyped, Feed, RowTyped;
      var i := 0;
      while i < src.rows
        modifies this`indexMap, this`indexKey
        invariant 0 <= i <= src.rows && indexMap == FeedAll(def_, src.storage[..i])
      {
        assert src.storage[..i + 1][..i] == src.storage[..i];
        UpdateFromTable(src.storage[i]);
        i := i + 1;
      }
      assert src.storage[..i] == src.storage;
    }

    /** The loop that appends one row per group. */
    method FillTable(ghost s: State)
      requires DefOk(def_) && RowsTyped(s.rows, def_.columns) && Counted(s) && s.counts == groupedTable.heap.counts
      requires indexMap == FeedAll(def_, s.rows) && |currentRow| == |def_.cols| + |def_.aggrs|
      requires groupedTable.heap.Valid() && groupedTable.rows == 0 && groupedTable.storage == []
      requires groupedTable.columns == GroupedColumns(def_)
      modifies this`currentRow, groupedTable`rows, groupedTable`storage, groupedTable.heap
      ensures groupedTable.storage == RowsOf(indexMap) && groupedTable.rows == |groupedTable.storage|
      ensures groupedTable.heap.counts == AcquireAll(s.counts, groupedTable.storage)
    {
      hide LexLess, KeyTyped, KeyParts, Items, UpdateAll, Feed, FeedAll, Counted, RowOf, RowTyped, AcquireAll;
      FeedAllItems(def_, s.rows, groupedTable.columns);
      NothingAcquired(s.counts);
      ghost var all := RowsOf(indexMap);
      var it := 0;
      while it < |indexMap|
        invariant 0 <= it <= |indexMap| && groupedTable.heap.Valid() && groupedTable.rows == |groupedTable.storage|
        invariant |currentRow| == |def_.cols| + |def_.aggrs|
        invariant groupedTable.storage == all[..it]
        invariant groupedTable.heap.counts == AcquireAll(s.counts, groupedTable.storage)
      {
        SourceStringsLive(s, def_, groupedTable.storage, it, s.counts);
        MakeRow(it);
        assert currentRow == all[it];
        TakeMore(all, it);
        AcquireMore(s.counts, groupedTable.storage, currentRow);
        groupedTable.AppendRowUnsafe(currentRow);
        it := it + 1;
      }
      assert all[..it] == all;
    }

    /** `Build()`: the rows of the grouped table are overwritten in key order, without touching a count. */
    method Build()
      requires Valid()
      modifies this`currentRow, groupedTable`storage
      ensures Valid() && State() == Refresh(old(State()))
      ensures groupedTable.storage == RowsOf(indexMap)
    {
      hide GroupedOk;
      ghost var g := State();
      RefreshOk(def_, g);
      GroupedFacts(def_, g);
      OverwriteRows();
      assert RowsOf(indexMap) == Refresh(g).rows;
    }

    /** The loop of `Build()`. */
    method OverwriteRows()
      requires DefOk(def_) && GroupsOk(def_, indexMap) && |currentRow| == |def_.cols| + |def_.aggrs|
      requires groupedTable.rows == |groupedTable.storage| == |indexMap|
      requires RowsTyped(groupedTable.storage, groupedTable.columns)
      requires forall p :: 0 <= p < |indexMap| ==> RowTyped(RowOf(indexMap[p]), groupedTable.columns)
      modifies this`currentRow, groupedTable`storage
      ensures groupedTable.storage == RowsOf(indexMap) && |currentRow| == |def_.cols| + |def_.aggrs|
      ensures RowsTyped(groupedTable.storage, groupedTable.columns)
    {
      hide GroupsOk, RowOf;
      ghost var all, before := RowsOf(indexMap), groupedTable.storage;
      var r := 0;
      while r < |indexMap|
        modifies this`currentRow, groupedTable`storage
        invariant 0 <= r <= |indexMap| && |currentRow| == |def_.cols| + |def_.aggrs|
        invariant groupedTable.storage == all[..r] + before[r..]
      {
        GroupedEntry(def_, indexMap, r);
        MakeRow(r);
        Overwritten(all, before, r);
        assert groupedTable.storage[r] == before[r] && currentRow == all[r];
        assert RowTyped(before[r], groupedTable.columns) && RowTyped(RowOf(indexMap[r]), groupedTable.columns);
        groupedTable.SetRowUnsafe(currentRow, r);
        r := r + 1;
      }
      assert all[..r] + before[r..] == all;
    }
  }

  lemma Overwritten(all: seq<Row>, before: seq<Row>, r: nat)
    requires r < |all| == |before|
    ensures (all[..r] + before[r..])[r := all[r]] == all[..r + 1] + before[r + 1..]
  {
  }

  lemma GroupedFacts(d: Def, g: Grouped)
    requires GroupedOk(d, g)
    ensures DefOk(d) && GroupsOk(d, g.m) && |g.rows| == |g.m|
  {
  }

  lemma TakeMore(rows: seq<Row>, i: nat)
    requires i < |rows|
    ensures rows[..i + 1] == rows[..i] + [rows[i]]
  {
  }

  lemma NothingAcquired(c: Counts)
    ensures AcquireAll(c, []) == c
  {
  }

  lemma AcquireMore(c: Counts, rows: seq<Row>, row: Row)
    ensures AcquireAll(c, rows + [row]) == Acquire(AcquireAll(c, rows), row)
  {
    hide Acquire;
    assert (rows + [row])[..|rows|] == rows;
  }

  /** Every row of the batch map has the types of the grouped table. */
  lemma {:induction false} FeedAllItems(d: Def, rows: seq<Row>, columns: seq<int>)
    requires DefOk(d) && RowsTyped(rows, d.columns) && columns == GroupIndex.GroupedColumns(d)
    ensures forall p :: 0 <= p < |FeedAll(d, rows)| ==> RowTyped(RowOf(FeedAll(d, rows)[p]), columns)
    decreases |rows|
  {
    hide Feed;
    if rows != [] {
      FeedAllItems(d, rows[..|rows|-1], columns);
      FeedRowsTyped(d, FeedAll(d, rows[..|rows|-1]), rows[|rows|-1], columns);
    }
  }

  /** The strings of a group are strings of the source table, which keeps them live. */
  lemma SourceStringsLive(s: State, d: Def, done: seq<Row>, p: nat, c0: Counts)
    requires Counted(s) && c0 == s.counts && DefOk(d) && RowsTyped(s.rows, d.columns)
    requires p < |FeedAll(d, s.rows)|
    ensures
      var row := RowOf(FeedAll(d, s.rows)[p]);
      forall i :: 0 <= i < |row| && row[i].Str? ==> row[i].ref in AcquireAll(c0, done)
  {
    hide Feed, LexLess, KeyTyped, RowsWith;
    var m := FeedAll(d, s.rows);
    var row := RowOf(m[p]);
    GroupsRight(d, s.rows);
    GroupedEntry(d, m, p);
    assert GroupRight(d, s.rows, m[p].key, m[p].val);
    var own := RowsWith(d, s.rows, m[p].key);
    assert own[0] in s.rows;
    var x :| 0 <= x < |s.rows| && s.rows[x] == own[0];
    assert RowTyped(s.rows[x], d.columns);
    forall i | 0 <= i < |row| && row[i].Str?
      ensures row[i].ref in AcquireAll(c0, done)
    {
      assert row[i] == s.rows[x][d.cols[i]];
      CellsHeld(s, x);
      assert row[i] in multiset(s.rows[x]);
      AcquireAllCount(c0, done, row[i].ref);
    }
  }

  /** The incremental builder of `dynamic.h`. */
  class GroupedTableBuilder {
    const columns: seq<int>      // the columns of the validator table
    const index: GroupIndex
    var currentData: Row
    var currentTypes: seq<int>
    ghost var fed: seq<Row>      // the accepted rows, in order

    ghost predicate Valid()
      reads this, index, index.groupedTable, index.groupedTable.heap
    {
      && index.Valid() && index.def_.columns == columns
      && |currentData| == |currentTypes| == |columns|
      && RowsTyped(fed, columns) && index.indexMap == FeedAll(index.def_, fed)
    }

    constructor (index: GroupIndex)
      requires index.Valid() && index.indexMap == []
      ensures Valid() && fed == [] && this.index == index
    {
      columns, this.index, fed := index.def_.columns, index, [];
      currentData := seq(|index.def_.columns|, _ => U64(0));
      currentTypes := seq(|index.def_.columns|, _ => UNDEF);
    }

    /** `Validate(vargs, data, types)`: writes the cells it has checked, up to the first mismatch. */
    method Validate(vargs: seq<Dyn>) returns (ok: bool)
      requires |currentData| == |currentTypes| == |columns|
      modifies this`currentData, this`currentTypes
      ensures |currentData| == |currentTypes| == |columns|
      ensures ok == TableSpec.Validate(columns, vargs)
      ensures ok <==> vargs != [] && forall c :: 0 <= c < |columns| && c < |vargs| ==> columns[c] == vargs[c].t
      ensures ok ==> forall c :: 0 <= c < |columns| ==>
                currentData[c] == (if c < |vargs| then vargs[c].data else old(currentData)[c])
    {
      if |vargs| == 0 {
        return false;
      }
      var size := if |columns| < |vargs| then |columns| else |vargs|;
      var col := 0;
      while col < size
        invariant 0 <= col <= size && |currentData| == |currentTypes| == |columns|
        invariant forall c :: 0 <= c < col ==> columns[c] == vargs[c].t && currentData[c] == vargs[c].data
        invariant forall c :: col <= c < |columns| ==> currentData[c] == old(currentData)[c]
      {
        if columns[col] != vargs[col].t {
          return false;
        }
        currentData := currentData[col := vargs[col].data];
        currentTypes := currentTypes[col := vargs[col].t];
        col := col + 1;
      }
      return true;
    }

    /** A full-width row with matching types is fed to the index; any other call changes nothing of the result. */
    method InsertRow(vargs: seq<Dyn>) returns (ok: bool)
      requires Valid() && (|vargs| == 0 || |vargs| >= |columns|)
      requires forall i :: 0 <= i < |vargs| ==> DynOk(vargs[i])
      requires forall i :: 0 <= i < |vargs| && vargs[i].data.Str? ==>
                 vargs[i].data.ref in index.groupedTable.heap.counts
      modifies this, index, index.groupedTable`rows, index.groupedTable`storage, index.groupedTable.heap
      ensures Valid() && ok == TableSpec.Validate(columns, vargs)
      ensures ok ==> |currentData| == |columns| && fed == old(fed) + [currentData]
                     && (forall c :: 0 <= c < |columns| ==> currentData[c] == vargs[c].data)
                     && index.State() == FeedRow(index.def_, old(index.State()), currentData)
      ensures !ok ==> fed == old(fed) && index.State() == old(index.State())
    {
      hide FeedAll, Feed, FeedRow, NewKey, GroupsOk, GroupedOk, RowTyped, RowsTyped, LexLess, KeyTyped;
      ok := Validate(vargs);
      if !ok {
        return;
      }
      ghost var g := index.State();
      GroupedFacts(index.def_, g);
      RowFits(columns, vargs, currentData);
      FeedAllSnoc(index.def_, fed, currentData);
      FeedRowMap(index.def_, g, currentData);
      index.UpdateIndex(currentData);
      fed := fed + [currentData];
    }

    /** The result equals the table that `Group` makes from the accepted rows. */
    method GetResult() returns (table: SharedTable)
      requires Valid()
      modifies index`currentRow, index.groupedTable`storage
      ensures Valid() && table == index.groupedTable && fed == old(fed)
      ensures table.storage == RowsOf(FeedAll(index.def_, fed))
      ensures IsGroupTable(index.def_, fed, table.storage)
      ensures index.State() == Refresh(old(index.State()))
    {
      hide IsGroupTable;
      GroupTableRight(index.def_, fed);
      index.Build();
      table := index.groupedTable;
    }
  }

  /** The cells of accepted arguments fit the columns. */
  lemma RowFits(columns: seq<int>, vargs: seq<Dyn>, row: Row)
    requires |row| == |columns| <= |vargs| && TableSpec.Validate(columns, vargs)
    requires forall c :: 0 <= c < |columns| ==> ColumnType(columns[c])
    requires forall i :: 0 <= i < |vargs| ==> DynOk(vargs[i])
    requires forall c :: 0 <= c < |columns| ==> row[c] == vargs[c].data
    ensures RowTyped(row, columns)
  {
    forall c | 0 <= c < |columns|
      ensures HasType(row[c], columns[c])
    {
      assert DynOk(vargs[c]) && columns[c] == vargs[c].t;
    }
  }

  lemma FeedAllSnoc(d: Def, rows: seq<Row>, row: Row)
    requires DefOk(d) && RowsTyped(rows, d.columns) && RowTyped(row, d.columns)
    ensures RowsTyped(rows + [row], d.columns)
    ensures FeedAll(d, rows + [row]) == Feed(d, FeedAll(d, rows), row)
  {
    hide Feed, RowTyped;
    assert (rows + [row])[..|rows|] == rows;
  }

  lemma FeedRowMap(d: Def, g: Grouped, row: Row)
    requires DefOk(d) && RowTyped(row, d.columns) && GroupsOk(d, g.m)
    ensures FeedRow(d, g, row).m == Feed(d, g.m, row)
  {
    hide Feed, NewKey, RowOf;
  }

  /** A new key is found at the position where it was inserted. */
  lemma FoundWhereInserted(d: Def, m: GroupMap, row: Row)
    requires DefOk(d) && GroupsOk(d, m) && RowTyped(row, d.columns) && NewKey(d, m, row)
    ensures StoredKey(d.mask, KeyOf(row, d.cols))
    ensures
      var k := KeyOf(row, d.cols);
      LowerBound(d.mask, m, k) == LowerBound(d.mask, Feed(d, m, row), k) < |Feed(d, m, row)|
  {
    hide LexLess, KeyTyped;
    GroupKeyStored(d, row);
    var k, m' := KeyOf(row, d.cols), Feed(d, m, row);
    var p := LowerBound(d.mask, m, k);
    FindLookup(d.mask, m, k);
    assert m'[p].key == k;
    LookupAt(d.mask, m', p);
    FindLookup(d.mask, m', k);
    var q := LowerBound(d.mask, m', k);
    if p != q {
      DistinctKeys(d.mask, m', p, q);
    }
  }

  /** The strings in the row of a new group are strings of the fed row. */
  lemma NewRowStrings(d: Def, m: GroupMap, row: Row)
    requires DefOk(d) && GroupsOk(d, m) && RowTyped(row, d.columns) && NewKey(d, m, row)
    ensures StoredKey(d.mask, KeyOf(row, d.cols)) && LowerBound(d.mask, m, KeyOf(row, d.cols)) < |Feed(d, m, row)|
    ensures
      var new_ := RowOf(Feed(d, m, row)[LowerBound(d.mask, m, KeyOf(row, d.cols))]);
      forall i :: 0 <= i < |new_| && new_[i].Str? ==> new_[i] in row
  {
    hide LexLess, KeyTyped;
    FoundWhereInserted(d, m, row);
    var p := LowerBound(d.mask, m, KeyOf(row, d.cols));
    GroupedEntry(d, Feed(d, m, row), p);
    assert forall i :: 0 <= i < |d.cols| ==> row[d.cols[i]] in row;
  }

  lemma FeedRowsTyped(d: Def, m: GroupMap, row: Row, columns: seq<int>)
    requires DefOk(d) && GroupsOk(d, m) && RowTyped(row, d.columns) && columns == GroupIndex.GroupedColumns(d)
    requires forall p :: 0 <= p < |m| ==> RowTyped(RowOf(m[p]), columns)
    ensures forall p :: 0 <= p < |Feed(d, m, row)| ==> RowTyped(RowOf(Feed(d, m, row)[p]), columns)
  {
    var m', k := Feed(d, m, row), KeyOf(row, d.cols);
    GroupKeyStored(d, row);
    hide LexLess, KeyTyped, RowTyped, RowOf, UpdateAll, Defaults, GroupIndex.GroupedColumns;
    var q := LowerBound(d.mask, m, k);
    FindLookup(d.mask, m, k);
    forall p | 0 <= p < |m'|
      ensures RowTyped(RowOf(m'[p]), columns)
    {
      if p == q && Find(d.mask, m, k).None? {
        EntryTyped(d, m'[p], row, columns);
      } else if p == q {
        EntryRetyped(d, m[p], m'[p], columns);
      } else {
        assert m'[p] in m;
      }
    }
  }

  /** A new group has the types of the grouped table. */
  lemma EntryTyped(d: Def, e: Entry<Group>, row: Row, columns: seq<int>)
    requires DefOk(d) && RowTyped(row, d.columns) && columns == GroupIndex.GroupedColumns(d)
    requires e.val.items == ItemsOf(row, d.cols) && ResultsTyped(d, e.val.results)
    ensures RowTyped(RowOf(e), columns)
  {
  }

  /** New results keep the types of a group. */
  lemma EntryRetyped(d: Def, e: Entry<Group>, e': Entry<Group>, columns: seq<int>)
    requires DefOk(d) && columns == GroupIndex.GroupedColumns(d) && RowTyped(RowOf(e), columns)
    requires e'.val.items == e.val.items && |e.val.items| == |d.cols|
    requires ResultsTyped(d, e.val.results) && ResultsTyped(d, e'.val.results)
    ensures RowTyped(RowOf(e'), columns)
  {
    forall c | 0 <= c < |columns|
      ensures HasType(RowOf(e')[c], columns[c])
    {
      assert HasType(RowOf(e)[c], columns[c]);
    }
  }
}
