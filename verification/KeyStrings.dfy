/** The string objects that the keys of an index point to: those of the row that opened the bucket. */
module KeyStrings {
  import opened Types
  import opened KeyOrder
  import opened OrderedMap
  import opened IndexSpec
  import opened TableSpec
  import opened TableRuns
  import opened RefCounts

  /** For each key of an index the cells its items were copied from; nothing is counted for them. */
  type KeyRefs = map<Key, Row>

  /** `index_map_[index_key]` copies the items only when the key is new. */
  function Opened(idx: IndexState, refs: KeyRefs, row: Row): KeyRefs
    requires forall i :: 0 <= i < |idx.cols| ==> idx.cols[i] < |row|
  {
    var k := KeyOf(row, idx.cols);
    if k in Keys(idx.entries) then refs else refs[k := ItemsOf(row, idx.cols)]
  }

  /** An erased entry takes its key along. */
  function Kept(idx: IndexState, refs: KeyRefs): KeyRefs {
    map k | k in refs && k in Keys(idx.entries) :: refs[k]
  }

  predicate RowOp(op: Op) {
    op.Append? || op.Insert? || op.Delete? || op.SetRow? || op.SetCell?
  }

  /** The strings of the keys of index `idx` after an accepted row operation. */
  function RefsAfter(s: State, op: Op, idx: IndexState, refs: KeyRefs): KeyRefs
    requires WellFormed(s) && OpOk(s, op) && Accepted(s, op) && IndexOk(s.columns, idx) && RowOp(op)
  {
    if op.Append? || op.Insert? then Opened(idx, refs, NewRow(s, op))
    else if op.Delete? then Kept(IndexAfter(s, op, idx), refs)
    else if op.SetCell? && op.c !in idx.cols then refs
    else
      var withdrawn := IndexDelete(s.columns, idx, s.rows[op.r], op.r, false);
      Opened(withdrawn, Kept(withdrawn, refs), NewRow(s, op))
  }

  /** The string is one that a key points to. */
  predicate PointedTo(refs: KeyRefs, r: StringRef) {
    exists k :: k in refs && Str(r) in refs[k]
  }

  /** Every string that a key points to is in some cell of the table, and so is live. */
  ghost predicate KeysHeld(rows: seq<Row>, refs: KeyRefs) {
    forall r :: PointedTo(refs, r) ==> HeldBy(rows, r) > 0
  }

  /** The copies of a string that the row loses and gains. */
  function Lost(s: State, op: Op): Row
    requires WellFormed(s) && OpOk(s, op) && Accepted(s, op) && RowOp(op)
  {
    if op.Append? || op.Insert? then [] else s.rows[op.r]
  }

  function Gained(s: State, op: Op): Row
    requires WellFormed(s) && OpOk(s, op) && Accepted(s, op) && RowOp(op)
  {
    if op.Delete? then [] else NewRow(s, op)
  }

  /** How many cells hold a string after a row operation. */
  lemma HeldAfter(s: State, op: Op, r: StringRef)
    requires WellFormed(s) && OpOk(s, op) && Accepted(s, op) && RowOp(op)
    ensures HeldBy(RowsAfter(s, op), r) + multiset(Lost(s, op))[Str(r)]
            == HeldBy(s.rows, r) + multiset(Gained(s, op))[Str(r)]
  {
    hide Cells, NewRow;
    match op
    case Append(_, _) =>
      CellsInsert(s.rows, |s.rows|, NewRow(s, op));
      assert s.rows[..|s.rows|] + [NewRow(s, op)] + s.rows[|s.rows|..] == s.rows + [NewRow(s, op)];
    case Insert(x, _, _) => CellsInsert(s.rows, x, NewRow(s, op));
    case Delete(x) => CellsDelete(s.rows, x);
    case SetRow(x, _, _) => HeldReplace(s.rows, x, NewRow(s, op), r);
    case SetCell(x, _, _) => HeldReplace(s.rows, x, NewRow(s, op), r);
    case _ =>
  }

  /**
   * After a row operation every string that a key points to is held by a cell if and only if none of them was held only
   * by the cells of the row that goes.
   */
  lemma KeysHeldExact(s: State, op: Op, idx: IndexState, refs: KeyRefs)
    requires WellFormed(s) && OpOk(s, op) && Accepted(s, op) && IndexOk(s.columns, idx) && RowOp(op)
    ensures
      var refs' := RefsAfter(s, op, idx, refs);
      KeysHeld(RowsAfter(s, op), refs')
      <==> forall r :: PointedTo(refs', r) ==>
             HeldBy(s.rows, r) + multiset(Gained(s, op))[Str(r)] > multiset(Lost(s, op))[Str(r)]
  {
    hide RefsAfter, RowsAfter, HeldBy, PointedTo, Lost, Gained, WellFormed, OpOk, Accepted, IndexOk;
    var refs' := RefsAfter(s, op, idx, refs);
    forall r
      ensures HeldBy(RowsAfter(s, op), r) > 0
              <==> HeldBy(s.rows, r) + multiset(Gained(s, op))[Str(r)] > multiset(Lost(s, op))[Str(r)]
    {
      HeldAfter(s, op, r);
    }
  }

  /** Adding a row never leaves a key without its strings. */
  lemma AddingKeepsHeld(s: State, op: Op, idx: IndexState, refs: KeyRefs)
    requires WellFormed(s) && OpOk(s, op) && Accepted(s, op) && IndexOk(s.columns, idx) && (op.Append? || op.Insert?)
    requires KeysHeld(s.rows, refs)
    ensures KeysHeld(RowsAfter(s, op), RefsAfter(s, op, idx, refs))
  {
    hide Cells, NewRow;
    var refs', row := RefsAfter(s, op, idx, refs), NewRow(s, op);
    forall r | PointedTo(refs', r)
      ensures HeldBy(RowsAfter(s, op), r) > 0
    {
      HeldAfter(s, op, r);
      var k :| k in refs' && Str(r) in refs'[k];
      if k in refs && refs'[k] == refs[k] {
        assert PointedTo(refs, r);
      } else {
        assert Str(r) in ItemsOf(row, idx.cols);
        assert Str(r) in multiset(row);
      }
    }
  }

  const SAME_A := StringRef(1, "x")
  const SAME_B := StringRef(2, "x")
  const TEXTS := State([STRING], [[Str(SAME_A)], [Str(SAME_B)]], [], map[SAME_A := 1, SAME_B := 1])
  const TEXT_INDEX := Subscribe([FIRST], [STRING])
  const OPENED_BY_A: KeyRefs := map[[KS("x")] := [Str(SAME_A)]]

  /**
   * Two rows with equal texts in different strings: when the first is deleted the key still points to its string, which
   * no cell holds and whose count is gone.
   */
  lemma KeyStringFreed()
    ensures WellFormed(TEXTS) && OpOk(TEXTS, TEXT_INDEX)
    ensures
      var s := Step(TEXTS, TEXT_INDEX);
      && Exact(s) && |s.indexes| == 1 && KeysHeld(s.rows, OPENED_BY_A) && Accepted(s, Delete(0))
      && RefsAfter(s, Delete(0), s.indexes[0], OPENED_BY_A) == OPENED_BY_A
      && HeldBy(Step(s, Delete(0)).rows, SAME_A) == 0 && SAME_A !in Step(s, Delete(0)).counts
  {
    TextsIndexed();
    hide Exact, InSync, IndexAfter, Release, HeldBy, PointedTo;
    var s := Step(TEXTS, TEXT_INDEX);
    assert KeyOf(s.rows[0], [FIRST]) == KeyOf(s.rows[1], [FIRST]) == [KS("x")];
    KeyStays(s, 0, 0, 1);
    KeptAll(IndexAfter(s, Delete(0), s.indexes[0]), OPENED_BY_A);
    TextCounts();
    OnlyA();
    FirstDeleted(s);
  }

  lemma KeptAll(idx: IndexState, refs: KeyRefs)
    requires forall k :: k in refs ==> k in Keys(idx.entries)
    ensures Kept(idx, refs) == refs
  {
  }

  lemma FirstDeleted(s: State)
    requires WellFormed(s) && s.rows == TEXTS.rows && s.counts == TEXTS.counts
    ensures Step(s, Delete(0)).rows == [[Str(SAME_B)]]
    ensures Step(s, Delete(0)).counts == Release(TEXTS.counts, [Str(SAME_A)])
  {
    hide IndexesAfter, Release;
  }

  lemma OnlyA()
    ensures forall r :: PointedTo(OPENED_BY_A, r) ==> r == SAME_A
  {
  }

  lemma TextsIndexed()
    ensures WellFormed(TEXTS) && OpOk(TEXTS, TEXT_INDEX)
    ensures
      var s := Step(TEXTS, TEXT_INDEX);
      && Exact(s) && InSync(s) && |s.indexes| == 1 && s.indexes[0].cols == [FIRST] && s.indexes[0].mask == [STRING]
      && s.rows == TEXTS.rows && s.counts == TEXTS.counts && s.columns == [STRING]
  {
    ExactIsSortedAgreement(TEXTS);
    assert [STRING][0] == STRING;
    StepInSync(TEXTS, TEXT_INDEX);
    ExactIsSortedAgreement(Step(TEXTS, TEXT_INDEX));
  }

  /** Where row `y` is after row `x` has been deleted. */
  lemma RowMoved(s: State, i: nat, x: nat, y: nat) returns (z: nat)
    requires WellFormed(s) && i < |s.indexes| && x < |s.rows| && y < |s.rows| && x != y
    ensures var t := Step(s, Delete(x));
            && z < |t.rows| && t.rows[z] == s.rows[y] && t.columns == s.columns
            && |t.indexes| == |s.indexes| && t.indexes[i] == IndexAfter(s, Delete(x), s.indexes[i])
  {
    hide IndexAfter, IndexOk;
    z := if y > x then y - 1 else y;
    assert Step(s, Delete(x)).rows == s.rows[..x] + s.rows[x+1..];
  }

  /** While another row has the key of the deleted one, its entry stays. */
  lemma KeyStays(s: State, i: nat, x: nat, y: nat)
    requires WellFormed(s) && Exact(s) && i < |s.indexes| && x < |s.rows| && y < |s.rows| && x != y
    requires KeyOf(s.rows[x], s.indexes[i].cols) == KeyOf(s.rows[y], s.indexes[i].cols)
    ensures KeyOf(s.rows[x], s.indexes[i].cols) in Keys(IndexAfter(s, Delete(x), s.indexes[i]).entries)
  {
    hide Exact, InSync, BucketsSorted, IndexAfter, KeyOf;
    ExactIsSortedAgreement(s);
    StepInSync(s, Delete(x));
    var t := Step(s, Delete(x));
    ExactIsSortedAgreement(t);
    var z := RowMoved(s, i, x, y);
    hide Step;
    ExactCovers(t, i, z);
    var m := t.indexes[i].entries;
    var p :| 0 <= p < |m| && z in m[p].val;
    ExactBuckets(t, i, p);
  }

  lemma TextCounts()
    ensures HeldBy(TEXTS.rows, SAME_A) == 1 && HeldBy([[Str(SAME_B)]], SAME_A) == 0
    ensures Release(TEXTS.counts, [Str(SAME_A)]) == map[SAME_B := 1]
  {
    CellsOne([Str(SAME_A)]);
    CellsOne([Str(SAME_B)]);
    CellsConcat([[Str(SAME_A)]], [[Str(SAME_B)]]);
    assert TEXTS.rows == [[Str(SAME_A)]] + [[Str(SAME_B)]];
    var row: Row := [Str(SAME_A)];
    assert row[..0] == [] && Release(TEXTS.counts, row[..0]) == TEXTS.counts;
  }
}
