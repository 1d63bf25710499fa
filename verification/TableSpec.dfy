/** The table as a value: rows, subscribed indexes and string counts, with one function per operation. */
module TableSpec {
  import opened Types
  import opened KeyOrder
  import opened OrderedMap
  import opened IndexSpec

  /** A `Dynamic` argument: a type code and the datum it carries. */
  datatype Dyn = Dyn(t: int, data: Data)

  predicate DynOk(v: Dyn) {
    ColumnType(v.t) ==> HasType(v.data, v.t)
  }

  datatype IndexState = IndexState(cols: seq<nat>, mask: seq<int>, entries: IndexMap)

  type Counts = map<StringRef, nat>

  datatype State = State(columns: seq<int>, rows: seq<Row>, indexes: seq<IndexState>, counts: Counts)

  // Keys

  function KeyOf(row: Row, cols: seq<nat>): Key
    requires forall i :: 0 <= i < |cols| ==> cols[i] < |row|
  {
    seq(|cols|, i requires 0 <= i < |cols| => MakeKeyItem(row[cols[i]]))
  }

  /** The cells that the items of a key point into. */
  function ItemsOf(row: Row, cols: seq<nat>): Row
    requires forall i :: 0 <= i < |cols| ==> cols[i] < |row|
  {
    seq(|cols|, i requires 0 <= i < |cols| => row[cols[i]])
  }

  /** The index definition fits the columns: every indexed column has the registered type of its mask entry. */
  predicate Fits(columns: seq<int>, cols: seq<nat>, mask: seq<int>) {
    && |cols| == |mask| <= MAX_KEY_SIZE
    && forall i :: 0 <= i < |cols| ==>
         cols[i] < |columns| && Registered(columns[cols[i]]) && Abs(mask[i]) == columns[cols[i]]
  }

  lemma KeyStored(columns: seq<int>, cols: seq<nat>, mask: seq<int>, row: Row)
    requires Fits(columns, cols, mask) && RowTyped(row, columns)
    ensures StoredKey(mask, KeyOf(row, cols))
  {
    forall i | 0 <= i < |mask|
      ensures ItemHasType(KeyOf(row, cols)[i], Abs(mask[i]))
    {
      assert HasType(row[cols[i]], columns[cols[i]]);
    }
  }

  predicate RowsTyped(rows: seq<Row>, columns: seq<int>) {
    forall x :: 0 <= x < |rows| ==> RowTyped(rows[x], columns)
  }

  function KeysOfRows(columns: seq<int>, rows: seq<Row>, cols: seq<nat>, mask: seq<int>): (ks: seq<Key>)
    requires Fits(columns, cols, mask) && RowsTyped(rows, columns)
    ensures |ks| == |rows| && forall x :: 0 <= x < |ks| ==> StoredKey(mask, ks[x]) && ks[x] == KeyOf(rows[x], cols)
  {
    assert forall x :: 0 <= x < |rows| ==> StoredKey(mask, KeyOf(rows[x], cols)) by {
      forall x | 0 <= x < |rows|
        ensures StoredKey(mask, KeyOf(rows[x], cols))
      {
        KeyStored(columns, cols, mask, rows[x]);
      }
    }
    seq(|rows|, x requires 0 <= x < |rows| => KeyOf(rows[x], cols))
  }

  predicate IndexOk(columns: seq<int>, idx: IndexState) {
    Fits(columns, idx.cols, idx.mask) && Ascending(idx.mask, idx.entries)
  }

  predicate WellFormed(s: State) {
    && RowsTyped(s.rows, s.columns)
    && |s.rows| < SIZE_T_COUNT
    && forall i :: 0 <= i < |s.indexes| ==> IndexOk(s.columns, s.indexes[i])
  }

  // String counts

  function Count(c: Counts, r: StringRef): nat {
    if r in c then c[r] else 0
  }

  /** `OP_INC_REF_DATA` on a cell; a default string is created with count 1. */
  function Inc(c: Counts, d: Data): Counts {
    if d.Str? then c[d.ref := Count(c, d.ref) + 1] else c
  }

  /** `OP_DEC_REF_DATA` on a cell: at zero the string is deleted. */
  function Dec(c: Counts, d: Data): Counts {
    if d.Str? && d.ref in c then if c[d.ref] <= 1 then c - {d.ref} else c[d.ref := c[d.ref] - 1]
    else c
  }

  function Acquire(c: Counts, row: Row): Counts {
    if row == [] then c else Inc(Acquire(c, row[..|row|-1]), row[|row|-1])
  }

  function Release(c: Counts, row: Row): Counts {
    if row == [] then c else Dec(Release(c, row[..|row|-1]), row[|row|-1])
  }

  /** Column by column the old cell is released and the new one acquired. */
  function Exchange(c: Counts, old_: Row, new_: Row): Counts
    requires |old_| == |new_|
  {
    if old_ == [] then c
    else
      var n := |old_| - 1;
      Inc(Dec(Exchange(c, old_[..n], new_[..n]), old_[n]), new_[n])
  }

  // Arguments

  /** `SharedTable::Validate` */
  predicate Validate(columns: seq<int>, vargs: seq<Dyn>) {
    |vargs| > 0 && forall c :: 0 <= c < |columns| && c < |vargs| ==> columns[c] == vargs[c].t
  }

  /** What `GetDefault` returned for the columns that have no argument. */
  predicate DefaultsOk(columns: seq<int>, vargs: seq<Dyn>, defaults: Row) {
    |defaults| == |columns| && forall c :: |vargs| <= c < |columns| ==> HasType(defaults[c], columns[c])
  }

  function FullRow(columns: seq<int>, vargs: seq<Dyn>, defaults: Row): (row: Row)
    requires |defaults| == |columns|
    ensures |row| == |columns|
  {
    seq(|columns|, c requires 0 <= c < |columns| => if c < |vargs| then vargs[c].data else defaults[c])
  }

  predicate ArgsOk(columns: seq<int>, vargs: seq<Dyn>, defaults: Row) {
    && (forall i :: 0 <= i < |vargs| ==> DynOk(vargs[i]))
    && (forall c :: 0 <= c < |columns| ==> ColumnType(columns[c]))
    && DefaultsOk(columns, vargs, defaults)
  }

  lemma FullRowTyped(columns: seq<int>, vargs: seq<Dyn>, defaults: Row)
    requires ArgsOk(columns, vargs, defaults) && Validate(columns, vargs)
    ensures RowTyped(FullRow(columns, vargs, defaults), columns)
  {
    forall c | 0 <= c < |columns|
      ensures HasType(FullRow(columns, vargs, defaults)[c], columns[c])
    {
      if c < |vargs| {
        assert DynOk(vargs[c]);
      }
    }
  }

  // Notifications of one index

  function IndexInsert(columns: seq<int>, idx: IndexState, row: Row, r: nat, incremental: bool): (idx': IndexState)
    requires IndexOk(columns, idx) && RowTyped(row, columns)
    ensures IndexOk(columns, idx') && idx'.cols == idx.cols && idx'.mask == idx.mask
  {
    KeyStored(columns, idx.cols, idx.mask, row);
    var k := KeyOf(row, idx.cols);
    InsertNotified(idx.mask, idx.entries, k, r);
    InsertRaised(idx.mask, idx.entries, k, r);
    idx.(entries := NotifyInsert(idx.mask, idx.entries, k, r, incremental))
  }

  predicate IndexHas(columns: seq<int>, idx: IndexState, row: Row, r: nat)
    requires IndexOk(columns, idx) && RowTyped(row, columns)
  {
    KeyStored(columns, idx.cols, idx.mask, row);
    Present(idx.mask, idx.entries, KeyOf(row, idx.cols), r)
  }

  /** A row that is not in the index fails the assertions of `NotifyRowDelete`; the index is then left as it is. */
  function IndexDelete(columns: seq<int>, idx: IndexState, row: Row, r: nat, incremental: bool): (idx': IndexState)
    requires IndexOk(columns, idx) && RowTyped(row, columns)
    ensures IndexOk(columns, idx') && idx'.cols == idx.cols && idx'.mask == idx.mask
  {
    if IndexHas(columns, idx, row, r) then
      KeyStored(columns, idx.cols, idx.mask, row);
      var k := KeyOf(row, idx.cols);
      Unlinked(idx.mask, idx.entries, k, r);
      BucketsLowered(idx.mask, Unlink(idx.mask, idx.entries, k, r), r);
      idx.(entries := NotifyDelete(idx.mask, idx.entries, k, r, incremental))
    else idx
  }

  /** The index after row `r` changed from `old_` to `new_`. */
  function IndexChange(columns: seq<int>, idx: IndexState, old_: Row, new_: Row, r: nat): (idx': IndexState)
    requires IndexOk(columns, idx) && RowTyped(old_, columns) && RowTyped(new_, columns)
    ensures IndexOk(columns, idx') && idx'.cols == idx.cols && idx'.mask == idx.mask
  {
    IndexInsert(columns, IndexDelete(columns, idx, old_, r, false), new_, r, false)
  }

  function BuildIndex(columns: seq<int>, rows: seq<Row>, cols: seq<nat>, mask: seq<int>): (idx: IndexState)
    requires Fits(columns, cols, mask) && RowsTyped(rows, columns)
    ensures IndexOk(columns, idx)
  {
    IndexState(cols, mask, Build(mask, KeysOfRows(columns, rows, cols, mask)))
  }

  // Operations

  datatype Op =
    | Append(vargs: seq<Dyn>, defaults: Row)
    | Insert(r: nat, vargs: seq<Dyn>, defaults: Row)
    | Delete(r: nat)
    | SetRow(r: nat, vargs: seq<Dyn>, defaults: Row)
    | SetCell(r: nat, c: nat, v: Dyn)
    | Subscribe(cols: seq<nat>, mask: seq<int>)
    | Unsubscribe(i: nat)

  /** What the callers of the operations must provide. */
  predicate OpOk(s: State, op: Op) {
    match op
    case Append(vargs, defaults) => ArgsOk(s.columns, vargs, defaults) && |s.rows| + 1 < SIZE_T_COUNT
    case Insert(_, vargs, defaults) => ArgsOk(s.columns, vargs, defaults) && |s.rows| + 1 < SIZE_T_COUNT
    case Delete(_) => true
    case SetRow(_, vargs, defaults) => ArgsOk(s.columns, vargs, defaults)
    case SetCell(r, c, v) => DynOk(v) && (r < |s.rows| <==> c < |s.columns|)
                             && (c < |s.columns| ==> ColumnType(s.columns[c]))
    case Subscribe(cols, mask) => Fits(s.columns, cols, mask)
    case Unsubscribe(_) => true
  }

  /** The operation passes its own checks and returns true. */
  predicate Accepted(s: State, op: Op) {
    match op
    case Append(vargs, _) => Validate(s.columns, vargs)
    case Insert(r, vargs, _) => r < |s.rows| && Validate(s.columns, vargs)
    case Delete(r) => r < |s.rows|
    case SetRow(r, vargs, _) => r < |s.rows| && Validate(s.columns, vargs)
    case SetCell(r, c, v) => r < |s.rows| && c < |s.columns| && s.columns[c] == v.t
    case Subscribe(_, _) => true
    case Unsubscribe(i) => i < |s.indexes|
  }

  /** The row an accepted operation writes. */
  function NewRow(s: State, op: Op): (row: Row)
    requires WellFormed(s) && OpOk(s, op) && Accepted(s, op)
    requires op.Append? || op.Insert? || op.SetRow? || op.SetCell?
    ensures RowTyped(row, s.columns)
  {
    match op
    case Append(vargs, defaults) =>
      FullRowTyped(s.columns, vargs, defaults);
      FullRow(s.columns, vargs, defaults)
    case Insert(_, vargs, defaults) =>
      FullRowTyped(s.columns, vargs, defaults);
      FullRow(s.columns, vargs, defaults)
    case SetRow(_, vargs, defaults) =>
      FullRowTyped(s.columns, vargs, defaults);
      FullRow(s.columns, vargs, defaults)
    case SetCell(r, c, v) => s.rows[r][c := v.data]
  }

  function RowsAfter(s: State, op: Op): (rows: seq<Row>)
    requires WellFormed(s) && OpOk(s, op) && Accepted(s, op)
    ensures RowsTyped(rows, s.columns) && |rows| < SIZE_T_COUNT
  {
    match op
    case Append(_, _) => s.rows + [NewRow(s, op)]
    case Insert(r, _, _) => s.rows[..r] + [NewRow(s, op)] + s.rows[r..]
    case Delete(r) => s.rows[..r] + s.rows[r + 1..]
    case SetRow(r, _, _) => s.rows[r := NewRow(s, op)]
    case SetCell(r, _, _) => s.rows[r := NewRow(s, op)]
    case Subscribe(_, _) => s.rows
    case Unsubscribe(_) => s.rows
  }

  /** How an accepted row operation notifies one subscribed index. */
  function IndexAfter(s: State, op: Op, idx: IndexState): (idx': IndexState)
    requires WellFormed(s) && OpOk(s, op) && Accepted(s, op) && IndexOk(s.columns, idx)
    ensures IndexOk(s.columns, idx') && idx'.cols == idx.cols && idx'.mask == idx.mask
  {
    match op
    case Append(_, _) => IndexInsert(s.columns, idx, NewRow(s, op), |s.rows|, false)
    case Insert(r, _, _) => IndexInsert(s.columns, idx, NewRow(s, op), r, true)
    case Delete(r) => IndexDelete(s.columns, idx, s.rows[r], r, true)
    case SetRow(r, _, _) => IndexChange(s.columns, idx, s.rows[r], NewRow(s, op), r)
    case SetCell(r, c, _) => if c in idx.cols then IndexChange(s.columns, idx, s.rows[r], NewRow(s, op), r) else idx
    case Subscribe(_, _) => idx
    case Unsubscribe(_) => idx
  }

  function IndexesAfter(s: State, op: Op): (indexes: seq<IndexState>)
    requires WellFormed(s) && OpOk(s, op) && Accepted(s, op)
    ensures forall i :: 0 <= i < |indexes| ==> IndexOk(s.columns, indexes[i])
  {
    if op.Subscribe? then s.indexes + [BuildIndex(s.columns, s.rows, op.cols, op.mask)]
    else if op.Unsubscribe? then s.indexes[..op.i] + s.indexes[op.i + 1..]
    else seq(|s.indexes|, i requires 0 <= i < |s.indexes| => IndexAfter(s, op, s.indexes[i]))
  }

  function CountsAfter(s: State, op: Op): Counts
    requires WellFormed(s) && OpOk(s, op) && Accepted(s, op)
  {
    match op
    case Append(_, _) => Acquire(s.counts, NewRow(s, op))
    case Insert(_, _, _) => Acquire(s.counts, NewRow(s, op))
    case Delete(r) => Release(s.counts, s.rows[r])
    case SetRow(r, vargs, _) =>
      var n := if |vargs| < |s.columns| then |vargs| else |s.columns|;
      var row := NewRow(s, op);
      Acquire(Exchange(s.counts, s.rows[r][..n], row[..n]), row[n..])
    case SetCell(r, c, v) => Inc(Dec(s.counts, s.rows[r][c]), v.data)
    case Subscribe(_, _) => s.counts
    case Unsubscribe(_) => s.counts
  }

  function Step(s: State, op: Op): (s': State)
    requires WellFormed(s) && OpOk(s, op)
    ensures WellFormed(s') && s'.columns == s.columns
  {
    if Accepted(s, op) then State(s.columns, RowsAfter(s, op), IndexesAfter(s, op), CountsAfter(s, op)) else s
  }
}
