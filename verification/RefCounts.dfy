/** String reference counts: every operation changes them by exactly the cells it adds and removes. */
module RefCounts {
  import opened Types
  import opened TableSpec
  import opened TableRuns

  /** All cells of the table. */
  function Cells(rows: seq<Row>): multiset<Data> {
    if rows == [] then multiset{} else Cells(rows[..|rows|-1]) + multiset(rows[|rows|-1])
  }

  function HeldBy(rows: seq<Row>, r: StringRef): nat {
    Cells(rows)[Str(r)]
  }

  /** The handles on a string outside the table. */
  function Outside(s: State, r: StringRef): int {
    Count(s.counts, r) - HeldBy(s.rows, r)
  }

  /** Every string is counted at least once for every cell that holds it. */
  ghost predicate Counted(s: State) {
    forall r :: HeldBy(s.rows, r) <= Count(s.counts, r)
  }

  lemma {:induction false} CellsConcat(a: seq<Row>, b: seq<Row>)
    ensures Cells(a + b) == Cells(a) + Cells(b)
  {
    if b == [] {
      assert a + b == a;
    } else {
      CellsConcat(a, b[..|b|-1]);
      assert (a + b)[..|a + b|-1] == a + b[..|b|-1];
    }
  }

  lemma CellsOne(row: Row)
    ensures Cells([row]) == multiset(row)
  {
    assert [row][..0] == [];
  }

  lemma CellsAt(rows: seq<Row>, r: nat)
    requires r < |rows|
    ensures Cells(rows) == Cells(rows[..r]) + multiset(rows[r]) + Cells(rows[r + 1..])
  {
    hide Cells;
    assert rows == rows[..r] + ([rows[r]] + rows[r + 1..]);
    CellsConcat(rows[..r], [rows[r]] + rows[r + 1..]);
    CellsConcat([rows[r]], rows[r + 1..]);
    CellsOne(rows[r]);
  }

  lemma CellsReplace(rows: seq<Row>, r: nat, row: Row)
    requires r < |rows|
    ensures Cells(rows[r := row]) + multiset(rows[r]) == Cells(rows) + multiset(row)
  {
    CellsAt(rows, r);
    CellsAt(rows[r := row], r);
    assert rows[r := row][..r] == rows[..r] && rows[r := row][r + 1..] == rows[r + 1..];
  }

  lemma HeldReplace(rows: seq<Row>, x: nat, row: Row, r: StringRef)
    requires x < |rows|
    ensures HeldBy(rows[x := row], r) + multiset(rows[x])[Str(r)] == HeldBy(rows, r) + multiset(row)[Str(r)]
    ensures multiset(rows[x])[Str(r)] <= HeldBy(rows, r)
  {
    hide Cells;
    CellsReplace(rows, x, row);
    CellsAt(rows, x);
    assert (Cells(rows[x := row]) + multiset(rows[x]))[Str(r)] == (Cells(rows) + multiset(row))[Str(r)];
  }

  lemma CellsInsert(rows: seq<Row>, r: nat, row: Row)
    requires r <= |rows|
    ensures Cells(rows[..r] + [row] + rows[r..]) == Cells(rows) + multiset(row)
  {
    assert rows == rows[..r] + rows[r..];
    CellsConcat(rows[..r], rows[r..]);
    CellsConcat(rows[..r] + [row], rows[r..]);
    CellsConcat(rows[..r], [row]);
    CellsOne(row);
  }

  lemma CellsDelete(rows: seq<Row>, r: nat)
    requires r < |rows|
    ensures Cells(rows) == Cells(rows[..r] + rows[r + 1..]) + multiset(rows[r])
  {
    CellsAt(rows, r);
    CellsConcat(rows[..r], rows[r + 1..]);
  }

  lemma Snoc(row: Row)
    requires row != []
    ensures multiset(row) == multiset(row[..|row|-1]) + multiset{row[|row|-1]}
  {
    assert row == row[..|row|-1] + [row[|row|-1]];
  }

  lemma {:induction false} AcquireCount(c: Counts, row: Row, r: StringRef)
    ensures Count(Acquire(c, row), r) == Count(c, r) + multiset(row)[Str(r)]
  {
    if row != [] {
      Snoc(row);
      AcquireCount(c, row[..|row|-1], r);
    }
  }

  lemma {:induction false} ReleaseCount(c: Counts, row: Row, r: StringRef)
    requires multiset(row)[Str(r)] <= Count(c, r)
    ensures Count(Release(c, row), r) == Count(c, r) - multiset(row)[Str(r)]
  {
    if row != [] {
      Snoc(row);
      ReleaseCount(c, row[..|row|-1], r);
    }
  }

  lemma {:induction false} ExchangeCount(c: Counts, old_: Row, new_: Row, r: StringRef)
    requires |old_| == |new_| && multiset(old_)[Str(r)] <= Count(c, r)
    ensures Count(Exchange(c, old_, new_), r) == Count(c, r) - multiset(old_)[Str(r)] + multiset(new_)[Str(r)]
  {
    if old_ != [] {
      Snoc(old_);
      Snoc(new_);
      ExchangeCount(c, old_[..|old_|-1], new_[..|new_|-1], r);
    }
  }

  /** Cells that `SetRow` overwrites with defaults without releasing them. */
  function Unreleased(s: State, op: Op): Row
    requires WellFormed(s) && OpOk(s, op)
  {
    if Accepted(s, op) && op.SetRow? && |op.vargs| < |s.columns| then s.rows[op.r][|op.vargs|..] else []
  }

  /** One operation changes the outside handles by exactly the strings in unreleased cells. */
  lemma StepOutside(s: State, op: Op, r: StringRef)
    requires WellFormed(s) && OpOk(s, op) && Counted(s)
    ensures Outside(Step(s, op), r) == Outside(s, r) + multiset(Unreleased(s, op))[Str(r)]
  {
    hide Cells, IndexesAfter, Acquire, Release, Exchange, RowsTyped, ArgsOk, Validate, IndexOk;
    if Accepted(s, op) {
      match op
      case Append(_, _) =>
        CellsConcat(s.rows, [NewRow(s, op)]);
        CellsOne(NewRow(s, op));
        AcquireCount(s.counts, NewRow(s, op), r);
      case Insert(x, _, _) =>
        CellsInsert(s.rows, x, NewRow(s, op));
        AcquireCount(s.counts, NewRow(s, op), r);
      case Delete(x) =>
        CellsDelete(s.rows, x);
        ReleaseCount(s.counts, s.rows[x], r);
      case SetRow(x, vargs, _) =>
        SetRowOutside(s, op, r);
      case SetCell(_, _, _) =>
        SetCellOutside(s, op, r);
      case Subscribe(_, _) =>
      case Unsubscribe(_) =>
    }
  }

  lemma SetCellOutside(s: State, op: Op, r: StringRef)
    requires WellFormed(s) && OpOk(s, op) && Counted(s) && op.SetCell? && Accepted(s, op)
    ensures Outside(Step(s, op), r) == Outside(s, r)
  {
    hide Cells, IndexesAfter;
    var row, c, d := s.rows[op.r], op.c, op.v.data;
    HeldReplace(s.rows, op.r, row[c := d], r);
    CellSet(row, c, d);
    assert Step(s, op).rows == s.rows[op.r := row[c := d]];
    assert Step(s, op).counts == Inc(Dec(s.counts, row[c]), d);
    assert HeldBy(s.rows, r) <= Count(s.counts, r);
    assert multiset(row)[Str(r)] <= HeldBy(s.rows, r);
    SwapCount(s.counts, row[c], d, r);
    assert multiset(row[c := d])[Str(r)] + (if row[c] == Str(r) then 1 else 0)
        == multiset(row)[Str(r)] + if d == Str(r) then 1 else 0;
  }

  lemma SwapCount(c: Counts, a: Data, b: Data, r: StringRef)
    requires a == Str(r) ==> Count(c, r) > 0
    ensures Count(Inc(Dec(c, a), b), r)
         == Count(c, r) - (if a == Str(r) then 1 else 0) + if b == Str(r) then 1 else 0
  {
  }

  lemma CellSet(row: Row, c: nat, d: Data)
    requires c < |row|
    ensures multiset(row[c := d]) == multiset(row) - multiset{row[c]} + multiset{d}
    ensures row[c] in multiset(row)
  {
  }

  lemma SetRowOutside(s: State, op: Op, r: StringRef)
    requires WellFormed(s) && OpOk(s, op) && Counted(s) && op.SetRow? && Accepted(s, op)
    ensures Outside(Step(s, op), r) == Outside(s, r) + multiset(Unreleased(s, op))[Str(r)]
  {
    hide Cells, IndexesAfter, Acquire, Exchange, ArgsOk, Validate, IndexOk, FullRow;
    var n := if |op.vargs| < |s.columns| then |op.vargs| else |s.columns|;
    var row := NewRow(s, op);
    HeldReplace(s.rows, op.r, row, r);
    assert Step(s, op).rows == s.rows[op.r := row];
    assert HeldBy(s.rows, r) <= Count(s.counts, r);
    assert RowTyped(s.rows[op.r], s.columns);
    assert Unreleased(s, op) == s.rows[op.r][n..];
    assert Step(s, op).counts == Acquire(Exchange(s.counts, s.rows[op.r][..n], row[..n]), row[n..]);
    PartlyExchanged(s.counts, s.rows[op.r], row, n, r);
  }

  lemma PartlyExchanged(c: Counts, old_: Row, new_: Row, n: nat, r: StringRef)
    requires n <= |old_| == |new_| && multiset(old_)[Str(r)] <= Count(c, r)
    ensures Count(Acquire(Exchange(c, old_[..n], new_[..n]), new_[n..]), r)
         == Count(c, r) - multiset(old_)[Str(r)] + multiset(old_[n..])[Str(r)] + multiset(new_)[Str(r)]
  {
    hide Acquire, Exchange, Count;
    assert old_ == old_[..n] + old_[n..] && new_ == new_[..n] + new_[n..];
    ExchangeCount(c, old_[..n], new_[..n], r);
    AcquireCount(Exchange(c, old_[..n], new_[..n]), new_[n..], r);
  }

  /** No string escapes its count in this step: the condition that only short `SetRow` calls can break. */
  predicate Conserving(s: State, op: Op)
    requires WellFormed(s) && OpOk(s, op)
  {
    forall c :: 0 <= c < |Unreleased(s, op)| ==> !Unreleased(s, op)[c].Str?
  }

  /** An operation conserves the outside handles of all strings if and only if no unreleased cell holds a string. */
  lemma StepConserves(s: State, op: Op)
    requires WellFormed(s) && OpOk(s, op) && Counted(s)
    ensures (forall r :: Outside(Step(s, op), r) == Outside(s, r)) <==> Conserving(s, op)
    ensures Counted(Step(s, op))
  {
    hide Step, Outside, OpOk, WellFormed, Unreleased;
    var u := Unreleased(s, op);
    forall r
      ensures Outside(Step(s, op), r) == Outside(s, r) + multiset(u)[Str(r)]
    {
      StepOutside(s, op, r);
    }
    if c :| 0 <= c < |u| && u[c].Str? {
      assert u[c] in multiset(u);
      assert Outside(Step(s, op), u[c].ref) != Outside(s, u[c].ref);
    } else {
      forall r
        ensures Outside(Step(s, op), r) == Outside(s, r)
      {
        assert Str(r) !in u;
      }
    }
    CountedOutside(s);
    CountedOutside(Step(s, op));
  }

  lemma CountedOutside(s: State)
    ensures Counted(s) <==> forall r :: 0 <= Outside(s, r)
  {
    assert forall r :: (0 <= Outside(s, r)) == (HeldBy(s.rows, r) <= Count(s.counts, r));
  }

  ghost predicate AlwaysConserving(s: State, ops: seq<Op>)
    requires RunOk(s, ops)
    decreases |ops|
  {
    ops != [] ==> Conserving(s, ops[0]) && AlwaysConserving(Step(s, ops[0]), ops[1..])
  }

  /**
   * Over any run every string's count stays its outside handles plus the cells holding it, if and only if each step
   * conserves: what one step leaks, no later step gives back.
   */
  lemma {:induction false} RunConserves(s: State, ops: seq<Op>)
    requires RunOk(s, ops) && Counted(s)
    ensures Counted(Run(s, ops)) && forall r :: Outside(Run(s, ops), r) >= Outside(s, r)
    ensures (forall r :: Outside(Run(s, ops), r) == Outside(s, r)) <==> AlwaysConserving(s, ops)
    decreases |ops|
  {
    hide Step, Outside, OpOk, WellFormed, Conserving, Counted, Unreleased;
    if ops != [] {
      var s1 := Step(s, ops[0]);
      StepConserves(s, ops[0]);
      RunConserves(s1, ops[1..]);
      forall r
        ensures Outside(Run(s, ops), r) >= Outside(s1, r) >= Outside(s, r)
      {
        StepOutside(s, ops[0], r);
      }
      if !Conserving(s, ops[0]) {
        var r :| Outside(s1, r) != Outside(s, r);
        assert Outside(Run(s, ops), r) > Outside(s, r);
      }
    }
  }

  const HELD := StringRef(1, "a")
  const SHORT_BEFORE := State([INTEGER, STRING], [[I64(1), Str(HELD)]], [], map[HELD := 1])
  const SHORT_SET := SetRow(0, [Dyn(INTEGER, I64(2))], [I64(0), Str(StringRef(2, ""))])

  /** A `SetRow` with too few arguments drops a string from the table but not from its count. */
  lemma ShortSetRowLeaks()
    ensures WellFormed(SHORT_BEFORE) && OpOk(SHORT_BEFORE, SHORT_SET) && Counted(SHORT_BEFORE)
    ensures Outside(SHORT_BEFORE, HELD) == 0 && Outside(Step(SHORT_BEFORE, SHORT_SET), HELD) == 1
  {
    var row := [I64(1), Str(HELD)];
    CellsOne(row);
    assert forall r :: multiset(row)[Str(r)] == if r == HELD then 1 else 0;
    assert SHORT_BEFORE.rows[0][1..] == [Str(HELD)];
    StepOutside(SHORT_BEFORE, SHORT_SET, HELD);
  }

  /** Full-width rows conserve. */
  lemma FullWidthConserves(s: State, op: Op)
    requires WellFormed(s) && OpOk(s, op)
    requires op.SetRow? ==> |op.vargs| >= |s.columns|
    ensures Conserving(s, op)
  {
  }

  /** `SharedTable::Clear` */
  function ReleaseAll(c: Counts, rows: seq<Row>): Counts {
    if rows == [] then c else Release(ReleaseAll(c, rows[..|rows|-1]), rows[|rows|-1])
  }

  /** `SharedTable::Clone`: the cells of the new table are acquired one by one. */
  function AcquireAll(c: Counts, rows: seq<Row>): Counts {
    if rows == [] then c else Acquire(AcquireAll(c, rows[..|rows|-1]), rows[|rows|-1])
  }

  lemma {:induction false} ReleaseAllCount(c: Counts, rows: seq<Row>, r: StringRef)
    requires HeldBy(rows, r) <= Count(c, r)
    ensures Count(ReleaseAll(c, rows), r) == Count(c, r) - HeldBy(rows, r)
  {
    if rows != [] {
      ReleaseAllCount(c, rows[..|rows|-1], r);
      ReleaseCount(ReleaseAll(c, rows[..|rows|-1]), rows[|rows|-1], r);
    }
  }

  lemma {:induction false} AcquireAllCount(c: Counts, rows: seq<Row>, r: StringRef)
    ensures Count(AcquireAll(c, rows), r) == Count(c, r) + HeldBy(rows, r)
  {
    if rows != [] {
      AcquireAllCount(c, rows[..|rows|-1], r);
      AcquireCount(AcquireAll(c, rows[..|rows|-1]), rows[|rows|-1], r);
    }
  }
}
