/** What a grouped table says about its source, cell by cell. */
module GroupTables {
  import opened Types
  import opened KeyOrder
  import opened OrderedMap
  import opened TableSpec
  import opened GroupSpec
  import opened CellOrder

  /** The rows whose cells in `cols` have the values `cells`, in order. */
  function RowsLike(cols: seq<nat>, rows: seq<Row>, cells: seq<Data>): (own: seq<Row>)
    requires forall x, i :: 0 <= x < |rows| && 0 <= i < |cols| ==> cols[i] < |rows[x]|
    ensures forall row :: row in own ==> row in rows
  {
    if rows == [] then []
    else
      var n := |rows| - 1;
      RowsLike(cols, rows[..n], cells) + if SameCells(ItemsOf(rows[n], cols), cells) then [rows[n]] else []
  }

  /**
   * Row `p` of a grouped table: the cells of the first row of its group, then aggregate `j` over the rows of the group,
   * in source order, in column `|cols| + j`.
   */
  ghost predicate GroupRow(d: Def, rows: seq<Row>, out: Row)
    requires DefOk(d) && RowsTyped(rows, d.columns)
  {
    && |out| == |d.cols| + |d.aggrs|
    && var own := RowsLike(d.cols, rows, out[..|d.cols|]);
       && own != [] && RowsTyped(own, d.columns)
       && (forall i :: 0 <= i < |d.cols| ==> out[i] == own[0][d.cols[i]])
       && forall j :: 0 <= j < |d.aggrs| ==> out[|d.cols| + j] == Fold(d.columns, d.aggrs[j], own)
  }

  /** One row per combination of cells that occurs in the grouping columns, in the order of those cells. */
  ghost predicate IsGroupTable(d: Def, rows: seq<Row>, out: seq<Row>)
    requires DefOk(d) && RowsTyped(rows, d.columns)
  {
    && (forall p :: 0 <= p < |out| ==> GroupRow(d, rows, out[p]))
    && (forall p, q :: 0 <= p < q < |out| ==>
          CellsBefore(Signs(d.mask), out[p][..|d.cols|], out[q][..|d.cols|]))
    && forall x :: 0 <= x < |rows| ==>
         exists p :: 0 <= p < |out| && SameCells(ItemsOf(rows[x], d.cols), out[p][..|d.cols|])
  }

  lemma {:induction false} RowsLikeWith(d: Def, rows: seq<Row>, row: Row)
    requires DefOk(d) && RowsTyped(rows, d.columns) && RowTyped(row, d.columns)
    ensures RowsLike(d.cols, rows, ItemsOf(row, d.cols)) == RowsWith(d, rows, KeyOf(row, d.cols))
    decreases |rows|
  {
    hide SameCells;
    if rows != [] {
      var n := |rows| - 1;
      RowsLikeWith(d, rows[..n], row);
      assert RowTyped(rows[n], d.columns);
      SameKey(d.cols, rows[n], row);
    }
  }

  /** The row made of a right group is a right row of the grouped table. */
  lemma RowOfGroup(d: Def, rows: seq<Row>, e: Entry<Group>)
    requires DefOk(d) && RowsTyped(rows, d.columns) && GroupRight(d, rows, e.key, e.val)
    ensures GroupRow(d, rows, RowOf(e)) && |RowOf(e)| == |d.cols| + |d.aggrs|
    ensures exists row :: row in rows && e.key == KeyOf(row, d.cols) && RowOf(e)[..|d.cols|] == ItemsOf(row, d.cols)
  {
    hide SameCells, Fold;
    var own := RowsWith(d, rows, e.key);
    var row := own[0];
    assert row in own && row in rows;
    RowsLikeWith(d, rows, row);
    assert RowOf(e)[..|d.cols|] == ItemsOf(row, d.cols);
  }

  /** The rows made of the groups of a table are its grouped table. */
  lemma GroupTableRight(d: Def, rows: seq<Row>)
    requires DefOk(d) && RowsTyped(rows, d.columns)
    ensures IsGroupTable(d, rows, RowsOf(FeedAll(d, rows)))
  {
    hide FeedAll, LexLess, CellsBefore, SameCells, GroupRow, GroupRight, RowOf;
    var m, n := FeedAll(d, rows), |d.cols|;
    var out := RowsOf(m);
    GroupsRight(d, rows);
    forall p | 0 <= p < |out|
      ensures GroupRow(d, rows, out[p]) && |out[p]| == n + |d.aggrs|
    {
      RowOfGroup(d, rows, m[p]);
    }
    forall p, q | 0 <= p < q < |out|
      ensures |out[p]| >= n && |out[q]| >= n && CellsBefore(Signs(d.mask), out[p][..n], out[q][..n])
    {
      EntriesBefore(d, rows, m[p], m[q]);
    }
    forall x | 0 <= x < |rows|
      ensures exists p :: 0 <= p < |out| && |out[p]| >= n && SameCells(ItemsOf(rows[x], d.cols), out[p][..n])
    {
      assert rows[x] in rows && KeyOf(rows[x], d.cols) in Keys(m);
      var p :| 0 <= p < |m| && m[p].key == KeyOf(rows[x], d.cols);
      EntryLike(d, rows, m[p], rows[x]);
      assert SameCells(ItemsOf(rows[x], d.cols), out[p][..n]);
    }
    assert forall p :: 0 <= p < |out| ==> GroupRow(d, rows, out[p]) && |out[p]| >= n;
    assert forall x :: 0 <= x < |rows| ==>
      exists p :: 0 <= p < |out| && SameCells(ItemsOf(rows[x], d.cols), out[p][..n]);
  }

  lemma EntriesBefore(d: Def, rows: seq<Row>, e: Entry<Group>, f: Entry<Group>)
    requires DefOk(d) && RowsTyped(rows, d.columns) && |d.mask| <= |e.key| && |d.mask| <= |f.key|
    requires LexLess(d.mask, e.key, f.key)
    requires GroupRight(d, rows, e.key, e.val) && GroupRight(d, rows, f.key, f.val)
    ensures |d.cols| <= |RowOf(e)| && |d.cols| <= |RowOf(f)|
    ensures CellsBefore(Signs(d.mask), RowOf(e)[..|d.cols|], RowOf(f)[..|d.cols|])
  {
    hide CellsBefore, LexLess, GroupRight, RowOf;
    RowOfGroup(d, rows, e);
    RowOfGroup(d, rows, f);
    var a :| a in rows && e.key == KeyOf(a, d.cols) && RowOf(e)[..|d.cols|] == ItemsOf(a, d.cols);
    var b :| b in rows && f.key == KeyOf(b, d.cols) && RowOf(f)[..|d.cols|] == ItemsOf(b, d.cols);
    KeyBefore(d.cols, d.mask, a, b);
  }

  lemma EntryLike(d: Def, rows: seq<Row>, e: Entry<Group>, row: Row)
    requires DefOk(d) && RowsTyped(rows, d.columns) && GroupRight(d, rows, e.key, e.val)
    requires RowTyped(row, d.columns) && e.key == KeyOf(row, d.cols)
    ensures |d.cols| <= |RowOf(e)| && SameCells(ItemsOf(row, d.cols), RowOf(e)[..|d.cols|])
  {
    hide SameCells, GroupRight, RowOf;
    RowOfGroup(d, rows, e);
    var a :| a in rows && e.key == KeyOf(a, d.cols) && RowOf(e)[..|d.cols|] == ItemsOf(a, d.cols);
    SameKey(d.cols, row, a);
  }

  lemma GroupedDef(d: Def, g: Grouped)
    requires GroupedOk(d, g)
    ensures DefOk(d)
  {
  }

  /** Whatever results the builder was asked for in between, its next one is the grouped table of the rows fed. */
  lemma BuilderTable(d: Def, g: Grouped, events: seq<Event>)
    requires GroupedOk(d, g) && g.m == [] && EventsOk(d, events)
    ensures RowsTyped(Fed(events), d.columns)
    ensures IsGroupTable(d, Fed(events), RunEvents(d, g, events + [GetResult]).rows)
  {
    hide RunEvents, FeedAll, Fed, GroupedOk, RowTyped, GroupsOk, IsGroupTable;
    BuilderRefinesBatch(d, g, events);
    GroupedDef(d, g);
    GroupTableRight(d, Fed(events));
  }
}
