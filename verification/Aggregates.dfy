/** What the aggregate of a group's rows means: count, total, least or greatest cell, and when it is none of these. */
module Aggregates {
  import opened Types
  import opened KeyOrder
  import opened TableSpec
  import opened GroupSpec

  /** The cells of the aggregated column. */
  function Cells(columns: seq<int>, a: Aggregator, rows: seq<Row>): (cells: seq<Data>)
    requires AggregatorOk(columns, a) && RowsTyped(rows, columns) && !a.kind.Count?
    ensures |cells| == |rows| && forall x :: 0 <= x < |cells| ==> HasType(cells[x], a.t)
  {
    assert forall x :: 0 <= x < |rows| ==> RowTyped(rows[x], columns);
    assert forall x :: 0 <= x < |rows| ==> HasType(rows[x][a.column], columns[a.column]);
    seq(|rows|, x requires 0 <= x < |rows| => rows[x][a.column])
  }

  /** One more row: the fold updates once, the cells get one more. */
  lemma OneMore(columns: seq<int>, a: Aggregator, rows: seq<Row>)
    requires AggregatorOk(columns, a) && RowsTyped(rows, columns) && !a.kind.Count? && rows != []
    ensures
      var n := |rows| - 1;
      && Fold(columns, a, rows) == Update(columns, a, Fold(columns, a, rows[..n]), rows[n])
      && Cells(columns, a, rows)[..n] == Cells(columns, a, rows[..n])
      && Cells(columns, a, rows)[n] == rows[n][a.column]
  {
  }

  lemma NoRows(columns: seq<int>, a: Aggregator)
    requires AggregatorOk(columns, a) && !a.kind.Count?
    ensures Fold(columns, a, []) == DefaultData(a) && Cells(columns, a, []) == []
  {
  }

  // ---- COUNT and SUM

  /** COUNT is the number of rows, as a 64-bit number. */
  lemma {:induction false} CountMeans(columns: seq<int>, a: Aggregator, rows: seq<Row>)
    requires AggregatorOk(columns, a) && RowsTyped(rows, columns) && a.kind.Count?
    ensures Fold(columns, a, rows) == U64(|rows| % SIZE_T_COUNT)
  {
    if rows != [] {
      CountMeans(columns, a, rows[..|rows|-1]);
    }
  }

  function IntTotal(cells: seq<Data>): int
    requires forall x :: 0 <= x < |cells| ==> cells[x].I64?
  {
    if cells == [] then 0 else IntTotal(cells[..|cells|-1]) + cells[|cells|-1].i
  }

  function UnsignedTotal(cells: seq<Data>): nat
    requires forall x :: 0 <= x < |cells| ==> cells[x].U64?
  {
    if cells == [] then 0 else UnsignedTotal(cells[..|cells|-1]) + cells[|cells|-1].u
  }

  function FloatTotal(cells: seq<Data>): real
    requires forall x :: 0 <= x < |cells| ==> cells[x].F64?
  {
    if cells == [] then 0.0 else FloatTotal(cells[..|cells|-1]) + cells[|cells|-1].f
  }

  /** SUM is the total: wrapped for the integer types, exact over reals; for BOOL and DATE_TIME it stays zero. */
  lemma {:induction false} SumMeans(columns: seq<int>, a: Aggregator, rows: seq<Row>)
    requires AggregatorOk(columns, a) && RowsTyped(rows, columns) && a.kind.Sum?
    ensures
      var r, cells := Fold(columns, a, rows), Cells(columns, a, rows);
      if a.t == INTEGER then r == I64(Wrap(IntTotal(cells)))
      else if a.t == UNSIGNED_INTEGER then r == U64(UnsignedTotal(cells) % SIZE_T_COUNT)
      else if a.t == FLOAT then r == F64(FloatTotal(cells))
      else r == U64(0)
  {
    hide Fold, Cells;
    if rows == [] {
      NoRows(columns, a);
    } else {
      OneMore(columns, a, rows);
      SumMeans(columns, a, rows[..|rows|-1]);
    }
  }

  /** SUM over BOOL or DATE_TIME is the total if and only if every cell is zero. */
  lemma SumOfFlagsOrDates(columns: seq<int>, a: Aggregator, rows: seq<Row>)
    requires AggregatorOk(columns, a) && RowsTyped(rows, columns) && a.kind.Sum? && a.t in {BOOL, DATE_TIME}
    ensures
      var cells := Cells(columns, a, rows);
      Fold(columns, a, rows) == U64(UnsignedTotal(cells)) <==> forall x :: 0 <= x < |cells| ==> cells[x] == U64(0)
  {
    SumMeans(columns, a, rows);
    ZeroTotal(Cells(columns, a, rows));
  }

  lemma {:induction false} ZeroTotal(cells: seq<Data>)
    requires forall x :: 0 <= x < |cells| ==> cells[x].U64?
    ensures UnsignedTotal(cells) == 0 <==> forall x :: 0 <= x < |cells| ==> cells[x] == U64(0)
  {
    if cells != [] {
      ZeroTotal(cells[..|cells|-1]);
    }
  }

  // ---- MIN and MAX

  predicate Least(cells: seq<Data>, r: Data) {
    r in cells && forall d :: d in cells ==> !Below(MakeKeyItem(d), MakeKeyItem(r))
  }

  predicate Greatest(cells: seq<Data>, r: Data) {
    r in cells && forall d :: d in cells ==> !Below(MakeKeyItem(r), MakeKeyItem(d))
  }

  /** MIN, except over DATE_TIME, is the least of the cells and of the value it starts from. */
  lemma {:induction false} MinMeans(columns: seq<int>, a: Aggregator, rows: seq<Row>)
    requires AggregatorOk(columns, a) && RowsTyped(rows, columns) && a.kind.Min? && a.t != DATE_TIME
    ensures Least(Cells(columns, a, rows) + [DefaultData(a)], Fold(columns, a, rows))
  {
    if rows != [] {
      var n := |rows| - 1;
      OneMore(columns, a, rows);
      MinMeans(columns, a, rows[..n]);
      var cells, start := Cells(columns, a, rows), DefaultData(a);
      forall d | d in cells + [start]
        ensures d in Cells(columns, a, rows[..n]) + [start] || d == cells[n]
      {
        assert cells == cells[..n] + [cells[n]];
      }
    }
  }

  /** MAX, except over DATE_TIME, is the greatest of the cells and of the value it starts from. */
  lemma {:induction false} MaxMeans(columns: seq<int>, a: Aggregator, rows: seq<Row>)
    requires AggregatorOk(columns, a) && RowsTyped(rows, columns) && a.kind.Max? && a.t != DATE_TIME
    ensures Greatest(Cells(columns, a, rows) + [DefaultData(a)], Fold(columns, a, rows))
  {
    if rows != [] {
      var n := |rows| - 1;
      OneMore(columns, a, rows);
      MaxMeans(columns, a, rows[..n]);
      var cells, start := Cells(columns, a, rows), DefaultData(a);
      forall d | d in cells + [start]
        ensures d in Cells(columns, a, rows[..n]) + [start] || d == cells[n]
      {
        assert cells == cells[..n] + [cells[n]];
      }
    }
  }

  /** So MIN is the least cell if and only if some cell is not above the start value. */
  lemma MinExact(columns: seq<int>, a: Aggregator, rows: seq<Row>)
    requires AggregatorOk(columns, a) && RowsTyped(rows, columns) && a.kind.Min? && a.t != DATE_TIME
    ensures
      var cells := Cells(columns, a, rows);
      Least(cells, Fold(columns, a, rows))
      <==> exists x :: 0 <= x < |cells| && !Below(MakeKeyItem(DefaultData(a)), MakeKeyItem(cells[x]))
  {
    MinMeans(columns, a, rows);
    var cells, start, r := Cells(columns, a, rows), DefaultData(a), Fold(columns, a, rows);
    assert start in cells + [start];
    forall d | d in cells
      ensures d in cells + [start] && HasType(d, a.t)
    {
    }
    if x :| 0 <= x < |cells| && !Below(MakeKeyItem(start), MakeKeyItem(cells[x])) {
      assert cells[x] in cells + [start];
    }
  }

  /** MAX is the greatest cell if and only if some cell is not below the start value. */
  lemma MaxExact(columns: seq<int>, a: Aggregator, rows: seq<Row>)
    requires AggregatorOk(columns, a) && RowsTyped(rows, columns) && a.kind.Max? && a.t != DATE_TIME
    ensures
      var cells := Cells(columns, a, rows);
      Greatest(cells, Fold(columns, a, rows))
      <==> exists x :: 0 <= x < |cells| && !Below(MakeKeyItem(cells[x]), MakeKeyItem(DefaultData(a)))
  {
    MaxMeans(columns, a, rows);
    var cells, start, r := Cells(columns, a, rows), DefaultData(a), Fold(columns, a, rows);
    assert start in cells + [start];
    forall d | d in cells
      ensures d in cells + [start] && HasType(d, a.t)
    {
    }
    if x :| 0 <= x < |cells| && !Below(MakeKeyItem(cells[x]), MakeKeyItem(start)) {
      assert cells[x] in cells + [start];
    }
  }

  /** The cell is within what its 64 bits can hold. */
  predicate InWidth(t: int, d: Data) {
    match d
    case I64(i) => INT64_MIN <= i <= INT64_MAX
    case U64(u) => if t == BOOL then u <= 1 else u < SIZE_T_COUNT
    case _ => true
  }

  predicate CellsInWidth(t: int, cells: seq<Data>) {
    forall x :: 0 <= x < |cells| ==> InWidth(t, cells[x])
  }

  /** For the integer types and BOOL every non-empty group's MIN and MAX are its least and greatest cell. */
  lemma ExtremesInWidth(columns: seq<int>, a: Aggregator, rows: seq<Row>)
    requires AggregatorOk(columns, a) && RowsTyped(rows, columns) && (a.kind.Min? || a.kind.Max?)
    requires a.t in {INTEGER, UNSIGNED_INTEGER, BOOL} && rows != [] && CellsInWidth(a.t, Cells(columns, a, rows))
    ensures var cells, r := Cells(columns, a, rows), Fold(columns, a, rows);
            if a.kind.Min? then Least(cells, r) else Greatest(cells, r)
  {
    var cells := Cells(columns, a, rows);
    assert InWidth(a.t, cells[0]) && HasType(cells[0], a.t);
    if a.kind.Min? {
      MinExact(columns, a, rows);
    } else {
      MaxExact(columns, a, rows);
    }
  }

  /** Over DATE_TIME nothing is ever compared: MIN stays at 2^64 - 1 and MAX at zero. */
  lemma {:induction false} ExtremesOfDates(columns: seq<int>, a: Aggregator, rows: seq<Row>)
    requires AggregatorOk(columns, a) && RowsTyped(rows, columns) && (a.kind.Min? || a.kind.Max?) && a.t == DATE_TIME
    ensures Fold(columns, a, rows) == DefaultData(a) == U64(if a.kind.Min? then SIZE_T_COUNT - 1 else 0)
  {
    if rows != [] {
      OneMore(columns, a, rows);
      ExtremesOfDates(columns, a, rows[..|rows|-1]);
    }
  }

  /** They are the least and the greatest date if and only if the group is not empty and every date is that value. */
  lemma DatesExact(columns: seq<int>, a: Aggregator, rows: seq<Row>)
    requires AggregatorOk(columns, a) && RowsTyped(rows, columns) && (a.kind.Min? || a.kind.Max?) && a.t == DATE_TIME
    requires CellsInWidth(a.t, Cells(columns, a, rows))
    ensures
      var cells, r := Cells(columns, a, rows), Fold(columns, a, rows);
      (if a.kind.Min? then Least(cells, r) else Greatest(cells, r))
      <==> cells != [] && forall x :: 0 <= x < |cells| ==> cells[x] == DefaultData(a)
  {
    ExtremesOfDates(columns, a, rows);
    var cells, r := Cells(columns, a, rows), Fold(columns, a, rows);
    forall x | 0 <= x < |cells|
      ensures cells[x] in cells && cells[x].U64? && cells[x].u < SIZE_T_COUNT
    {
      assert InWidth(a.t, cells[x]) && HasType(cells[x], a.t);
    }
    if cells != [] && forall x :: 0 <= x < |cells| ==> cells[x] == DefaultData(a) {
      assert cells[0] == r;
    }
  }

  // ---- Rows for which the aggregate is wrong

  lemma DateExtremesLost()
    ensures
      var rows, min, max := [[U64(5)]], Aggregator(0, DATE_TIME, Min), Aggregator(0, DATE_TIME, Max);
      && RowsTyped(rows, [DATE_TIME])
      && Fold([DATE_TIME], min, rows) == U64(SIZE_T_COUNT - 1)
      && !Least(Cells([DATE_TIME], min, rows), U64(SIZE_T_COUNT - 1))
      && Fold([DATE_TIME], max, rows) == U64(0)
      && !Greatest(Cells([DATE_TIME], max, rows), U64(0))
  {
    var rows := [[U64(5)]];
    assert RowTyped(rows[0], [DATE_TIME]);
    ExtremesOfDates([DATE_TIME], Aggregator(0, DATE_TIME, Min), rows);
    ExtremesOfDates([DATE_TIME], Aggregator(0, DATE_TIME, Max), rows);
    DatesExact([DATE_TIME], Aggregator(0, DATE_TIME, Min), rows);
    DatesExact([DATE_TIME], Aggregator(0, DATE_TIME, Max), rows);
    assert Cells([DATE_TIME], Aggregator(0, DATE_TIME, Min), rows)[0] == U64(5);
    assert Cells([DATE_TIME], Aggregator(0, DATE_TIME, Max), rows)[0] == U64(5);
  }

  lemma FlagSumLost()
    ensures
      var rows, sum := [[U64(1)]], Aggregator(0, BOOL, Sum);
      RowsTyped(rows, [BOOL]) && Fold([BOOL], sum, rows) == U64(0) && UnsignedTotal(Cells([BOOL], sum, rows)) == 1
  {
    var rows, sum := [[U64(1)]], Aggregator(0, BOOL, Sum);
    assert RowTyped(rows[0], [BOOL]);
    SumMeans([BOOL], sum, rows);
    assert Cells([BOOL], sum, rows) == [U64(1)];
    assert [U64(1)][..0] == [];
  }

  lemma FloatExtremesLost()
    ensures
      var low, high := [[F64(-1.0e20)]], [[F64(1.0e20)]];
      var min, max := Aggregator(0, FLOAT, Min), Aggregator(0, FLOAT, Max);
      && RowsTyped(low, [FLOAT]) && RowsTyped(high, [FLOAT])
      && !Least(Cells([FLOAT], min, high), Fold([FLOAT], min, high))
      && !Greatest(Cells([FLOAT], max, low), Fold([FLOAT], max, low))
  {
    var low, high := [[F64(-1.0e20)]], [[F64(1.0e20)]];
    assert RowTyped(low[0], [FLOAT]) && RowTyped(high[0], [FLOAT]);
    MinExact([FLOAT], Aggregator(0, FLOAT, Min), high);
    MaxExact([FLOAT], Aggregator(0, FLOAT, Max), low);
    assert Cells([FLOAT], Aggregator(0, FLOAT, Min), high) == [F64(1.0e20)];
    assert Cells([FLOAT], Aggregator(0, FLOAT, Max), low) == [F64(-1.0e20)];
  }
}
