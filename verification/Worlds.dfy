/** Several tables that share their strings: runs of row operations, `Clear` and `Clone` on any of them. */
module Worlds {
  import opened Types
  import opened TableSpec
  import opened RefCounts

  /** The tables and the counts of all strings; the counts in the states of the tables are not used. */
  datatype World = World(tables: seq<State>, counts: Counts)

  datatype Action =
    | Row(i: nat, op: Op)
    | Clear(i: nat)
    | Clone(i: nat, rows: seq<Row>)   // the rows of the clone: the same ones, or copies with new strings

  function TableIn(w: World, i: nat): State
    requires i < |w.tables|
  {
    w.tables[i].(counts := w.counts)
  }

  /** What the callers must provide; a clone, shallow or full, has rows of the same types. */
  predicate ActionOk(w: World, a: Action) {
    && a.i < |w.tables|
    && match a
       case Row(i, op) => WellFormed(TableIn(w, i)) && OpOk(TableIn(w, i), op)
       case Clear(_) => true
       case Clone(i, rows) => RowsTyped(rows, w.tables[i].columns)
  }

  function Act(w: World, a: Action): World
    requires ActionOk(w, a)
  {
    match a
    case Row(i, op) => var s := Step(TableIn(w, i), op); World(w.tables[i := s.(counts := map[])], s.counts)
    case Clear(i) => World(w.tables[i := State([], [], [], map[])], ReleaseAll(w.counts, w.tables[i].rows))
    case Clone(i, rows) =>
      World(w.tables + [State(w.tables[i].columns, rows, [], map[])], AcquireAll(w.counts, rows))
  }

  /** The cells of all tables that hold a string. */
  function Held(tables: seq<State>, r: StringRef): nat {
    if tables == [] then 0 else Held(tables[..|tables|-1], r) + HeldBy(tables[|tables|-1].rows, r)
  }

  /** The handles on a string outside all tables. */
  function Handles(w: World, r: StringRef): int {
    Count(w.counts, r) - Held(w.tables, r)
  }

  ghost predicate AllCounted(w: World) {
    forall r :: 0 <= Handles(w, r)
  }

  predicate Keeps(w: World, a: Action)
    requires ActionOk(w, a)
  {
    a.Row? ==> Conserving(TableIn(w, a.i), a.op)
  }

  lemma {:induction false} HeldSet(tables: seq<State>, i: nat, t: State, r: StringRef)
    requires i < |tables|
    ensures Held(tables[i := t], r) + HeldBy(tables[i].rows, r) == Held(tables, r) + HeldBy(t.rows, r)
    ensures HeldBy(tables[i].rows, r) <= Held(tables, r)
  {
    hide HeldBy;
    var n := |tables| - 1;
    if i < n {
      assert tables[i := t][..n] == tables[..n][i := t];
      HeldSet(tables[..n], i, t, r);
    } else {
      assert tables[i := t][..n] == tables[..n];
    }
  }

  /** One action changes the handles outside all tables by exactly the strings in cells that it leaves unreleased. */
  lemma ActHandles(w: World, a: Action, r: StringRef)
    requires ActionOk(w, a) && AllCounted(w)
    ensures Handles(Act(w, a), r)
            == Handles(w, r) + if a.Row? then multiset(Unreleased(TableIn(w, a.i), a.op))[Str(r)] else 0
  {
    hide WellFormed, OpOk, Unreleased, Step, HeldBy, Count, ReleaseAll, AcquireAll, Held, RowsTyped;
    var rows := w.tables[a.i].rows;
    match a
    case Row(i, op) =>
      TableCounted(w, i);
      StepOutside(TableIn(w, i), op, r);
      HeldSet(w.tables, i, Step(TableIn(w, i), op).(counts := map[]), r);
    case Clear(i) =>
      TableCounted(w, i);
      TableHeld(w, i, r);
      ReleaseAllCount(w.counts, rows, r);
      HeldSet(w.tables, i, State([], [], [], map[]), r);
      NoneHeld(r);
    case Clone(i, clones) =>
      AcquireAllCount(w.counts, clones, r);
      HeldMore(w.tables, State(w.tables[i].columns, clones, [], map[]), r);
  }

  lemma HeldMore(tables: seq<State>, t: State, r: StringRef)
    ensures Held(tables + [t], r) == Held(tables, r) + HeldBy(t.rows, r)
  {
    assert (tables + [t])[..|tables|] == tables;
  }

  lemma NoneHeld(r: StringRef)
    ensures HeldBy([], r) == 0
  {
  }

  lemma TableHeld(w: World, i: nat, r: StringRef)
    requires AllCounted(w) && i < |w.tables|
    ensures HeldBy(w.tables[i].rows, r) <= Count(w.counts, r)
  {
    hide HeldBy, Count, Held;
    HeldSet(w.tables, i, w.tables[i], r);
    assert 0 <= Handles(w, r);
  }

  lemma TableCounted(w: World, i: nat)
    requires AllCounted(w) && i < |w.tables|
    ensures Counted(TableIn(w, i))
  {
    hide HeldBy, Count, AllCounted;
    forall r
      ensures HeldBy(w.tables[i].rows, r) <= Count(w.counts, r)
    {
      TableHeld(w, i, r);
    }
  }

  /** An action conserves all outside handles if and only if it leaves no string unreleased; `Clear` and `Clone` do. */
  lemma ActConserves(w: World, a: Action)
    requires ActionOk(w, a) && AllCounted(w)
    ensures AllCounted(Act(w, a)) && forall r :: Handles(Act(w, a), r) >= Handles(w, r)
    ensures (forall r :: Handles(Act(w, a), r) == Handles(w, r)) <==> Keeps(w, a)
  {
    hide Handles, Act, WellFormed, OpOk, Unreleased, RowsTyped;
    var u: Row := if a.Row? then Unreleased(TableIn(w, a.i), a.op) else [];
    forall r
      ensures Handles(Act(w, a), r) == Handles(w, r) + multiset(u)[Str(r)]
    {
      ActHandles(w, a, r);
    }
    if c :| 0 <= c < |u| && u[c].Str? {
      assert u[c] in multiset(u);
      assert Handles(Act(w, a), u[c].ref) != Handles(w, u[c].ref);
    } else {
      forall r
        ensures Handles(Act(w, a), r) == Handles(w, r)
      {
        assert Str(r) !in u;
      }
    }
  }

  predicate ActionsOk(w: World, actions: seq<Action>)
    decreases |actions|
  {
    actions != [] ==> ActionOk(w, actions[0]) && ActionsOk(Act(w, actions[0]), actions[1..])
  }

  function ActAll(w: World, actions: seq<Action>): World
    requires ActionsOk(w, actions)
    decreases |actions|
  {
    if actions == [] then w else ActAll(Act(w, actions[0]), actions[1..])
  }

  predicate AlwaysKeeps(w: World, actions: seq<Action>)
    requires ActionsOk(w, actions)
    decreases |actions|
  {
    actions != [] ==> Keeps(w, actions[0]) && AlwaysKeeps(Act(w, actions[0]), actions[1..])
  }

  /**
   * Over any run of row operations, clears and clones on any tables, every string's count stays its outside handles
   * plus its cells in all tables, if and only if no short `SetRow` drops a string.
   */
  lemma {:induction false} WorldConserves(w: World, actions: seq<Action>)
    requires ActionsOk(w, actions) && AllCounted(w)
    ensures AllCounted(ActAll(w, actions)) && forall r :: Handles(ActAll(w, actions), r) >= Handles(w, r)
    ensures (forall r :: Handles(ActAll(w, actions), r) == Handles(w, r)) <==> AlwaysKeeps(w, actions)
    decreases |actions|
  {
    hide Handles, Act, ActionOk, Keeps, AllCounted;
    if actions != [] {
      var w1 := Act(w, actions[0]);
      ActConserves(w, actions[0]);
      WorldConserves(w1, actions[1..]);
      if !Keeps(w, actions[0]) {
        var r :| Handles(w1, r) != Handles(w, r);
        assert Handles(ActAll(w, actions), r) > Handles(w, r);
      }
    }
  }
}
