/** Table objects that share one string heap are the tables of a world. */
module Sharing {
  import opened Types
  import opened TableSpec
  import opened RefCounts
  import opened Table
  import opened Worlds

  /** The state of a table without the counts of the heap. */
  ghost function Bare(t: SharedTable): State
    reads t, t.indexSet
  {
    State(t.columns, t.storage, t.IndexStates(), map[])
  }

  ghost function Bares(tables: seq<SharedTable>): (states: seq<State>)
    reads *
    ensures |states| == |tables| && forall i :: 0 <= i < |tables| ==> states[i] == Bare(tables[i])
  {
    if tables == [] then [] else Bares(tables[..|tables|-1]) + [Bare(tables[|tables|-1])]
  }

  ghost function WorldOf(tables: seq<SharedTable>, heap: StringHeap): (w: World)
    reads *
    ensures |w.tables| == |tables|
    ensures forall i :: 0 <= i < |tables| ==> TableIn(w, i) == Bare(tables[i]).(counts := heap.counts)
  {
    World(Bares(tables), heap.counts)
  }

  /** Different tables on one heap, each in order, and together holding no string more often than it is counted. */
  ghost predicate Together(tables: seq<SharedTable>, heap: StringHeap)
    reads *
  {
    && heap.Valid() && AllCounted(WorldOf(tables, heap))
    && (forall i, j :: 0 <= i < j < |tables| ==> tables[i] != tables[j])
    && forall i :: 0 <= i < |tables| ==> tables[i].heap == heap && tables[i].Valid()
  }

  /** What an operation on one table leaves alone of another. */
  twostate predicate Untouched(t: SharedTable)
    reads t, t.indexSet
  {
    && t.rows == old(t.rows) && t.columns == old(t.columns) && t.storage == old(t.storage)
    && t.indexSet == old(t.indexSet) && t.IndexStates() == old(t.IndexStates())
  }

  /** The table is in this state. */
  ghost predicate Shows(t: SharedTable, s: State)
    reads t, t.heap, t.indexSet
  {
    t.columns == s.columns && t.storage == s.rows && t.IndexStates() == s.indexes && t.heap.counts == s.counts
  }

  predicate Steps(s: State, op: Op, t: State) {
    WellFormed(s) && OpOk(s, op) && t == Step(s, op)
  }

  /** The worlds `w` and `w'` differ in table `i` only, which is now `t`. */
  predicate Differs(w: World, w': World, i: nat, t: State) {
    && i < |w.tables| == |w'.tables| && w'.tables[i] == Without(t) && w'.counts == t.counts
    && forall j :: 0 <= j < |w.tables| && j != i ==> w'.tables[j] == w.tables[j]
  }

  function Without(t: State): State {
    State(t.columns, t.rows, t.indexes, map[])
  }

  /**
   * A row operation on one of the tables is the row action of the world, and all the others stay in order although
   * their strings were acquired and released.
   */
  twostate lemma Operated(tables: seq<SharedTable>, heap: StringHeap, i: nat, s: State, op: Op, t: State)
    requires i < |tables| && Steps(s, op, t) && old(Shows(tables[i], s)) && Shows(tables[i], t)
    requires tables[i].Valid()
    requires old(Together(tables, heap))
    requires forall j :: 0 <= j < |tables| && j != i ==> Untouched(tables[j])
    ensures ActionOk(old(WorldOf(tables, heap)), Row(i, op))
    ensures WorldOf(tables, heap) == Act(old(WorldOf(tables, heap)), Row(i, op))
    ensures Together(tables, heap)
  {
    hide Steps, Counted, AllCounted, StringHeap.Valid, Act, ActionOk;
    var w, w' := old(WorldOf(tables, heap)), WorldOf(tables, heap);
    assert Differs(w, w', i, t) && TableIn(w, i) == s;
    RowAct(w, w', i, s, op, t);
    forall j | 0 <= j < |tables| && j != i
      ensures tables[j].Valid()
    {
      TableCounted(w', j);
    }
  }

  /** Clearing one of the tables is the clear action of the world. */
  twostate lemma Cleared(tables: seq<SharedTable>, heap: StringHeap, i: nat)
    requires i < |tables| && old(Together(tables, heap))
    requires tables[i].Valid()
    requires tables[i].Abs() == State([], [], [], ReleaseAll(old(heap.counts), old(tables[i].storage)))
    requires forall j :: 0 <= j < |tables| && j != i ==> Untouched(tables[j])
    ensures WorldOf(tables, heap) == Act(old(WorldOf(tables, heap)), Clear(i))
    ensures Together(tables, heap)
  {
    hide RowsTyped, IndexOk, Counted, AllCounted, StringHeap.Valid, Act;
    var w, w' := old(WorldOf(tables, heap)), WorldOf(tables, heap);
    assert Differs(w, w', i, tables[i].Abs());
    ClearAct(w, w', i);
    forall j | 0 <= j < |tables| && j != i
      ensures tables[j].Valid()
    {
      TableCounted(w', j);
    }
  }

  lemma RowAct(w: World, w': World, i: nat, s: State, op: Op, t: State)
    requires AllCounted(w) && i < |w.tables| && s == TableIn(w, i) && Steps(s, op, t)
    requires Differs(w, w', i, t)
    ensures ActionOk(w, Row(i, op)) && w' == Act(w, Row(i, op)) && AllCounted(w')
  {
    hide AllCounted, WellFormed, OpOk, Step, Handles;
    ActConserves(w, Row(i, op));
    assert w'.tables == Act(w, Row(i, op)).tables;
  }

  lemma ClearAct(w: World, w': World, i: nat)
    requires AllCounted(w) && i < |w.tables|
    requires Differs(w, w', i, State([], [], [], ReleaseAll(w.counts, w.tables[i].rows)))
    ensures w' == Act(w, Clear(i)) && AllCounted(w')
  {
    hide AllCounted, Handles;
    ActConserves(w, Clear(i));
    assert w'.tables == Act(w, Clear(i)).tables;
  }

  /** `DeleteRow` on one of several tables: what its frame leaves alone is enough for all of them. */
  method DeleteRowOf(tables: seq<SharedTable>, heap: StringHeap, i: nat, rowNum: nat) returns (ok: bool)
    requires Together(tables, heap) && i < |tables| && tables[i].Found(rowNum)
    modifies tables[i], heap, tables[i].indexSet
    ensures Together(tables, heap)
    ensures ok == (rowNum < old(tables[i].rows))
    ensures ActionOk(old(WorldOf(tables, heap)), Row(i, Delete(rowNum)))
    ensures WorldOf(tables, heap) == Act(old(WorldOf(tables, heap)), Row(i, Delete(rowNum)))
  {
    hide AllCounted, StringHeap.Valid, Act, ActionOk, RowsTyped, IndexOk, Counted, Step;
    ghost var w, s := WorldOf(tables, heap), tables[i].Abs();
    assert Steps(s, Delete(rowNum), Step(s, Delete(rowNum)));
    ok := tables[i].DeleteRow(rowNum);
    forall j | 0 <= j < |tables| && j != i
      ensures Bare(tables[j]) == old(Bare(tables[j])) && tables[j].rows == old(tables[j].rows)
    {
      assert forall x :: 0 <= x < |tables[j].indexSet| ==> tables[j].indexSet[x] !in old(tables[i].indexSet);
      assert tables[j].IndexStates() == old(tables[j].IndexStates());
    }
    ghost var w', t := WorldOf(tables, heap), tables[i].Abs();
    assert Differs(w, w', i, t) && TableIn(w, i) == s;
    RowAct(w, w', i, s, Delete(rowNum), t);
    forall j | 0 <= j < |tables| && j != i
      ensures tables[j].Valid()
    {
      TableCounted(w', j);
    }
  }

  /** `AppendRow` on one of several tables. */
  method AppendRowOf(tables: seq<SharedTable>, heap: StringHeap, i: nat, vargs: seq<Dyn>, now: nat)
    returns (ok: bool, ghost defaults: Row)
    requires Together(tables, heap) && i < |tables|
    requires tables[i].ArgsTyped(vargs) && tables[i].Held(vargs) && tables[i].rows + 1 < SIZE_T_COUNT
    modifies tables[i], heap, tables[i].indexSet
    ensures ok == TableSpec.Validate(old(tables[i].columns), vargs)
    ensures Together(tables, heap)
    ensures ok ==> ActionOk(old(WorldOf(tables, heap)), Row(i, Append(vargs, defaults)))
    ensures ok ==> WorldOf(tables, heap) == Act(old(WorldOf(tables, heap)), Row(i, Append(vargs, defaults)))
  {
    hide AllCounted, StringHeap.Valid, Act, ActionOk, RowsTyped, IndexOk, Counted, Step, OpOk;
    ghost var w, s := WorldOf(tables, heap), tables[i].Abs();
    ok, defaults := tables[i].AppendRow(vargs, now);
    forall j | 0 <= j < |tables| && j != i
      ensures Bare(tables[j]) == old(Bare(tables[j])) && tables[j].rows == old(tables[j].rows)
    {
      assert forall x :: 0 <= x < |tables[j].indexSet| ==> tables[j].indexSet[x] !in old(tables[i].indexSet);
      assert tables[j].IndexStates() == old(tables[j].IndexStates());
    }
    ghost var w', t := WorldOf(tables, heap), tables[i].Abs();
    assert Differs(w, w', i, t) && TableIn(w, i) == s;
    if ok {
      RowAct(w, w', i, s, Append(vargs, defaults), t);
    } else {
      assert w' == w by {
        assert w'.tables == w.tables;
      }
    }
    forall j | 0 <= j < |tables| && j != i
      ensures tables[j].Valid()
    {
      TableCounted(w', j);
    }
  }

  /** `Clone` of one of several tables: the clone joins them. */
  method CloneOf(tables: seq<SharedTable>, heap: StringHeap, i: nat, full: bool) returns (result: SharedTable)
    requires Together(tables, heap) && i < |tables|
    modifies heap
    ensures fresh(result) && Together(tables + [result], heap)
    ensures ActionOk(old(WorldOf(tables, heap)), Clone(i, result.storage))
    ensures WorldOf(tables + [result], heap) == Act(old(WorldOf(tables, heap)), Clone(i, result.storage))
  {
    hide AllCounted, StringHeap.Valid, RowsTyped, IndexOk, Counted, AcquireAll, Copied;
    ghost var w := WorldOf(tables, heap);
    result := tables[i].Clone(full);
    ghost var all := tables + [result];
    ghost var w' := WorldOf(all, heap);
    ActConserves(w, Clone(i, result.storage));
    assert w'.tables == Act(w, Clone(i, result.storage)).tables;
    forall j | 0 <= j < |tables|
      ensures all[j].Valid()
    {
      TableCounted(w', j);
    }
  }
}
