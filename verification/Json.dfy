/** The stack machine that turns JSON parser events into a dynamic value. */
module Json {
  import opened Types
  import opened Numbers

  datatype Value =
    | Undef
    | Bool(b: bool)
    | Num(n: Number)
    | Text(s: string)
    | List(items: seq<Value>)
    | Dict(members: map<string, Value>)

  predicate Scalar(v: Value) {
    !v.List? && !v.Dict?
  }

  // ---- Pointers into a value: a `Dynamic *` is the path from the root to the slot it points at.

  datatype Step = Key(k: string) | Index(i: nat)
  type Path = seq<Step>

  predicate HasStep(v: Value, s: Step) {
    match (v, s)
    case (Dict(m), Key(k)) => k in m
    case (List(l), Index(i)) => i < |l|
    case _ => false
  }

  function Child(v: Value, s: Step): (c: Value)
    requires HasStep(v, s)
    ensures c < v
  {
    match s
    case Key(k) => v.members[k]
    case Index(i) => v.items[i]
  }

  function PutChild(v: Value, s: Step, w: Value): (r: Value)
    requires HasStep(v, s)
    ensures HasStep(r, s) && Child(r, s) == w
  {
    match s
    case Key(k) => Dict(v.members[k := w])
    case Index(i) => List(v.items[i := w])
  }

  predicate Has(v: Value, p: Path) {
    p == [] || (HasStep(v, p[0]) && Has(Child(v, p[0]), p[1..]))
  }

  function At(v: Value, p: Path): Value
    requires Has(v, p)
  {
    if p == [] then v else At(Child(v, p[0]), p[1..])
  }

  /** `*p = w` */
  function Put(v: Value, p: Path, w: Value): Value
    requires Has(v, p)
    decreases |p|
  {
    if p == [] then w else PutChild(v, p[0], Put(Child(v, p[0]), p[1..], w))
  }

  lemma PutChildTwice(v: Value, s: Step, w: Value, x: Value)
    requires HasStep(v, s)
    ensures PutChild(PutChild(v, s, w), s, x) == PutChild(v, s, x)
  {
    match s
    case Key(k) => assert v.members[k := w][k := x] == v.members[k := x];
    case Index(i) => assert v.items[i := w][i := x] == v.items[i := x];
  }

  lemma {:induction false} AtPut(v: Value, p: Path, w: Value)
    requires Has(v, p)
    ensures Has(Put(v, p, w), p) && At(Put(v, p, w), p) == w
    decreases |p|
  {
    if p != [] {
      AtPut(Child(v, p[0]), p[1..], w);
    }
  }

  lemma {:induction false} PutTwice(v: Value, p: Path, w: Value, x: Value)
    requires Has(v, p)
    ensures Has(Put(v, p, w), p) && Put(Put(v, p, w), p, x) == Put(v, p, x)
    decreases |p|
  {
    if p != [] {
      var c := Child(v, p[0]);
      PutTwice(c, p[1..], w, x);
      PutChildTwice(v, p[0], Put(c, p[1..], w), Put(c, p[1..], x));
    }
  }

  /** A pointer to a slot of a container, seen through the container. */
  lemma {:induction false} PathStep(v: Value, p: Path, s: Step)
    requires Has(v, p)
    ensures Has(v, p + [s]) <==> HasStep(At(v, p), s)
    ensures Has(v, p + [s]) ==> At(v, p + [s]) == Child(At(v, p), s)
    ensures Has(v, p + [s]) ==> forall w :: Put(v, p + [s], w) == Put(v, p, PutChild(At(v, p), s, w))
    decreases |p|
  {
    var q := p + [s];
    if p == [] {
      assert q[1..] == [];
    } else {
      assert q[0] == p[0] && q[1..] == p[1..] + [s];
      PathStep(Child(v, p[0]), p[1..], s);
    }
  }

  // ---- The machine.

  datatype Kind = Undefined | InMap | InArray

  datatype Event =
    | OnScalar(v: Value)
    | OnStartMap
    | OnMapKey(key: string)
    | OnEndMap
    | OnStartArray
    | OnEndArray

  /** The fields of `DynamicConstructor`, and the tree that its pointers point into. */
  datatype Machine = Machine(root: Value, container: Option<Path>, value: Option<Path>, kind: Kind, stack: seq<Path>)

  /** A handler's outcome: it returns true, it returns false, or it uses a pointer that points at nothing suitable. */
  datatype Outcome = Next(m: Machine) | Refused | Invalid

  function Init(root: Value): Machine {
    Machine(root, Some([]), None, Undefined, [])
  }

  /** `*current_value_ = v` or `current_container_->PushBack(v)`. */
  function Store(m: Machine, v: Value): Outcome {
    match m.kind
    case InMap =>
      if m.value.Some? && Has(m.root, m.value.value) then Next(m.(root := Put(m.root, m.value.value, v)))
      else Invalid
    case InArray =>
      if m.container.Some? && Has(m.root, m.container.value) then
        var c := m.container.value;
        match At(m.root, c)
        case List(items) => Next(m.(root := Put(m.root, c, List(items + [v]))))
        case _ => Next(m)
      else Invalid
    case Undefined => Refused
  }

  /** The slot that a new container goes to: `current_value_`, or the `back()` of the list after the push. */
  function NewSlot(m: Machine): Option<Path> {
    if m.kind == InMap then m.value
    else if m.container.Some? && Has(m.root, m.container.value) && At(m.root, m.container.value).List? then
      Some(m.container.value + [Index(|At(m.root, m.container.value).items|)])
    else None
  }

  function Start(m: Machine, empty: Value, kind: Kind): Outcome {
    if m.kind == Undefined then
      if m.container.Some? && Has(m.root, m.container.value) then
        var c := m.container.value;
        Next(Machine(Put(m.root, c, empty), Some(c), m.value, kind, m.stack + [c]))
      else Invalid
    else
      match NewSlot(m)
      case None => Invalid
      case Some(c) =>
        match Store(m, empty)
        case Next(n) => Next(Machine(n.root, Some(c), m.value, kind, m.stack + [c]))
        case bad => bad
  }

  function MapKey(m: Machine, key: string): Outcome {
    if m.container.Some? && Has(m.root, m.container.value) && At(m.root, m.container.value).Dict? then
      var c := m.container.value;
      var d := At(m.root, c).members;
      var d' := if key in d then d else d[key := Undef];
      Next(m.(root := Put(m.root, c, Dict(d')), value := Some(c + [Key(key)])))
    else Invalid
  }

  function End(m: Machine): Outcome {
    if m.stack == [] then Invalid
    else
      var stack := m.stack[..|m.stack|-1];
      if stack == [] then Next(m.(container := None, stack := []))
      else
        var top := stack[|stack|-1];
        if !Has(m.root, top) then Invalid
        else
          var kind := if At(m.root, top).Dict? then InMap else InArray;
          Next(m.(container := Some(top), kind := kind, stack := stack))
  }

  function Handle(m: Machine, ev: Event): Outcome {
    match ev
    case OnScalar(v) => Store(m, v)
    case OnStartMap => Start(m, Dict(map[]), InMap)
    case OnMapKey(key) => MapKey(m, key)
    case OnEndMap => End(m)
    case OnStartArray => Start(m, List([]), InArray)
    case OnEndArray => End(m)
  }

  function Run(o: Outcome, events: seq<Event>): Outcome
    decreases |events|
  {
    if events == [] || !o.Next? then o else Run(Handle(o.m, events[0]), events[1..])
  }

  lemma {:induction false} RunAppend(o: Outcome, a: seq<Event>, b: seq<Event>)
    ensures Run(o, a + b) == Run(Run(o, a), b)
    decreases |a|
  {
    if a == [] {
      assert a + b == b;
    } else if o.Next? {
      assert (a + b)[1..] == a[1..] + b;
      RunAppend(Handle(o.m, a[0]), a[1..], b);
    }
  }

  // ---- JSON trees and their events.

  datatype Json = JScalar(v: Value) | JArray(items: seq<Json>) | JObject(members: seq<(string, Json)>)

  predicate Tree(j: Json) {
    match j
    case JScalar(v) => Scalar(v)
    case JArray(items) => forall i :: 0 <= i < |items| ==> Tree(items[i])
    case JObject(ms) => forall i :: 0 <= i < |ms| ==> Tree(ms[i].1)
  }

  function Size(j: Json): nat {
    match j
    case JScalar(_) => 0
    case JArray(items) => |items|
    case JObject(ms) => |ms|
  }

  /** The events of a tree, in the order the parser reports them. */
  function Events(j: Json): seq<Event>
    decreases j, 1, 0
  {
    match j
    case JScalar(v) => [OnScalar(v)]
    case JArray(items) => [OnStartArray] + EventsBefore(j, |items|) + [OnEndArray]
    case JObject(ms) => [OnStartMap] + EventsBefore(j, |ms|) + [OnEndMap]
  }

  /** The events of the first `n` items or members. */
  function EventsBefore(j: Json, n: nat): seq<Event>
    requires n <= Size(j)
    decreases j, 0, n
  {
    if n == 0 then []
    else
      match j
      case JArray(items) => EventsBefore(j, n - 1) + Events(items[n-1])
      case JObject(ms) => EventsBefore(j, n - 1) + ([OnMapKey(ms[n-1].0)] + Events(ms[n-1].1))
  }

  /** The value of a tree: of several members with one key, the last counts. */
  function ValueOf(j: Json): Value
    decreases j, 1, 0
  {
    match j
    case JScalar(v) => v
    case JArray(_) => ValueBefore(j, Size(j))
    case JObject(_) => ValueBefore(j, Size(j))
  }

  /** The container with the first `n` items or members. */
  function ValueBefore(j: Json, n: nat): (v: Value)
    requires n <= Size(j)
    requires !j.JScalar?
    ensures if j.JArray? then v.List? && |v.items| == n else v.Dict?
    decreases j, 0, n
  {
    match j
    case JArray(items) =>
      if n == 0 then List([]) else List(ValueBefore(j, n - 1).items + [ValueOf(items[n-1])])
    case JObject(ms) =>
      if n == 0 then Dict(map[])
      else Dict(ValueBefore(j, n - 1).members[ms[n-1].0 := ValueOf(ms[n-1].1)])
  }

  // ---- Running the events of a tree.

  /** The machine is filling the container `x` at `c`, above the containers `below`. */
  predicate Filling(m: Machine, c: Path, x: Value, below: seq<Path>) {
    && m.container == Some(c) && m.stack == below + [c]
    && Has(m.root, c) && At(m.root, c) == x
    && match x
       case Dict(_) => m.kind == InMap
       case List(_) => m.kind == InArray
       case _ => false
  }

  /** Where the next value of a container goes: the slot of the key just read, or the end of the list. */
  predicate SlotReady(m: Machine, c: Path, x: Value, s: Step) {
    match x
    case Dict(d) => s.Key? && s.k in d && m.value == Some(c + [s])
    case List(items) => s == Index(|items|)
    case _ => false
  }

  function Filled(x: Value, s: Step, v: Value): (y: Value)
    requires (x.Dict? && s.Key?) || x.List?
    ensures x.Dict? ==> y == Dict(x.members[s.k := v])
    ensures x.List? ==> y == List(x.items + [v])
  {
    match x
    case Dict(d) => Dict(d[s.k := v])
    case List(items) => List(items + [v])
  }

  /** The state after `m`, once the container at `c` holds `y`. */
  predicate Reached(o: Outcome, m: Machine, c: Path, y: Value, below: seq<Path>) {
    o.Next? && Has(m.root, c) && o.m.root == Put(m.root, c, y) && Filling(o.m, c, y, below)
  }

  lemma StoreFills(m: Machine, c: Path, x: Value, s: Step, v: Value, below: seq<Path>)
    requires Filling(m, c, x, below) && SlotReady(m, c, x, s)
    ensures Reached(Store(m, v), m, c, Filled(x, s, v), below)
  {
    AtPut(m.root, c, Filled(x, s, v));
    PathStep(m.root, c, s);
  }

  /** Starting a container, filling it up to `y` and ending it stores `y` in the slot. */
  lemma StartFills(m: Machine, c: Path, x: Value, s: Step, empty: Value, kind: Kind, below: seq<Path>)
    requires Filling(m, c, x, below) && SlotReady(m, c, x, s)
    requires (empty == Dict(map[]) && kind == InMap) || (empty == List([]) && kind == InArray)
    ensures
      var o := Start(m, empty, kind);
      && o.Next? && o.m.root == Put(m.root, c, Filled(x, s, empty))
      && Filling(o.m, c + [s], empty, below + [c])
  {
    StoreFills(m, c, x, s, empty, below);
    var root := Store(m, empty).m.root;
    PathStep(root, c, s);
  }

  lemma EndFills(m: Machine, root: Value, c: Path, x: Value, s: Step, y: Value, z: Value, below: seq<Path>)
    requires Has(root, c) && At(root, c) == x && ((x.Dict? && s.Key?) || (x.List? && s == Index(|x.items|)))
    requires Has(Put(root, c, Filled(x, s, y)), c + [s])
    requires m.root == Put(Put(root, c, Filled(x, s, y)), c + [s], z)
    requires m.stack == below + [c] + [c + [s]]
    ensures var o := End(m); o.Next? && o.m.root == Put(root, c, Filled(x, s, z))
    ensures Filling(End(m).m, c, Filled(x, s, z), below)
  {
    var before := Put(root, c, Filled(x, s, y));
    AtPut(root, c, Filled(x, s, y));
    PathStep(before, c, s);
    PutTwice(root, c, Filled(x, s, y), Filled(x, s, z));
    AtPut(root, c, Filled(x, s, z));
    assert PutChild(Filled(x, s, y), s, z) == Filled(x, s, z);
    assert m.stack[..|m.stack|-1] == below + [c];
  }

  /** The events of a value, run where a value is expected, store exactly that value. */
  lemma {:induction false} RunValue(m: Machine, j: Json, c: Path, x: Value, s: Step, below: seq<Path>)
    requires Tree(j) && Filling(m, c, x, below) && SlotReady(m, c, x, s)
    ensures Reached(Run(Next(m), Events(j)), m, c, Filled(x, s, ValueOf(j)), below)
    decreases j, 1, 0
  {
    if j.JScalar? {
      StoreFills(m, c, x, s, j.v, below);
    } else {
      var empty := ValueBefore(j, 0);
      var kind := if j.JArray? then InArray else InMap;
      StartFills(m, c, x, s, empty, kind, below);
      var m1 := Start(m, empty, kind).m;
      RunBefore(m1, j, Size(j), c + [s], below + [c]);
      var o2 := Run(Next(m1), EventsBefore(j, Size(j)));
      EndFills(o2.m, m.root, c, x, s, empty, ValueOf(j), below);
      RunAround(m, j);
    }
  }

  /** The first `n` items or members, run in a new container, fill it with them. */
  lemma {:induction false} RunBefore(m: Machine, j: Json, n: nat, c: Path, below: seq<Path>)
    requires Tree(j) && !j.JScalar? && n <= Size(j)
    requires Filling(m, c, ValueBefore(j, 0), below)
    ensures Reached(Run(Next(m), EventsBefore(j, n)), m, c, ValueBefore(j, n), below)
    decreases j, 0, n
  {
    if n == 0 {
      PutSame(m.root, c);
    } else {
      RunBefore(m, j, n - 1, c, below);
      var o := Run(Next(m), EventsBefore(j, n - 1));
      var x := ValueBefore(j, n - 1);
      match j
      case JArray(items) =>
        RunValue(o.m, items[n-1], c, x, Index(n - 1), below);
        RunAppend(Next(m), EventsBefore(j, n - 1), Events(items[n-1]));
        PutTwice(m.root, c, x, ValueBefore(j, n));
      case JObject(ms) =>
        var (k, v) := ms[n-1];
        KeyFills(o.m, c, x, k, below);
        var o1 := MapKey(o.m, k);
        var x1 := At(o1.m.root, c);
        RunValue(o1.m, v, c, x1, Key(k), below);
        assert ([OnMapKey(k)] + Events(v))[1..] == Events(v);
        RunAppend(Next(m), EventsBefore(j, n - 1), [OnMapKey(k)] + Events(v));
        PutTwice(m.root, c, x, x1);
        PutTwice(m.root, c, x1, ValueBefore(j, n));
        assert x1.members[k := ValueOf(v)] == x.members[k := ValueOf(v)];
    }
  }

  lemma KeyFills(m: Machine, c: Path, x: Value, k: string, below: seq<Path>)
    requires Filling(m, c, x, below) && x.Dict?
    ensures
      var o := MapKey(m, k);
      var x1 := if k in x.members then x else Dict(x.members[k := Undef]);
      Reached(o, m, c, x1, below) && SlotReady(o.m, c, x1, Key(k))
  {
    AtPut(m.root, c, if k in x.members then x else Dict(x.members[k := Undef]));
  }

  lemma {:induction false} PutSame(v: Value, p: Path)
    requires Has(v, p)
    ensures Put(v, p, At(v, p)) == v
    decreases |p|
  {
    if p != [] {
      PutSame(Child(v, p[0]), p[1..]);
      match p[0]
      case Key(k) => assert v.members[k := v.members[k]] == v.members;
      case Index(i) => assert v.items[i := v.items[i]] == v.items;
    }
  }

  lemma RunAround(m: Machine, j: Json)
    requires !j.JScalar?
    requires var o := Start(m, ValueBefore(j, 0), if j.JArray? then InArray else InMap);
             o.Next? && Run(o, EventsBefore(j, Size(j))).Next?
    ensures var o := Start(m, ValueBefore(j, 0), if j.JArray? then InArray else InMap);
            Run(Next(m), Events(j)) == End(Run(o, EventsBefore(j, Size(j))).m)
  {
    hide Start, End, EventsBefore, ValueBefore, Events, Run;
    var first := if j.JArray? then OnStartArray else OnStartMap;
    var last := if j.JArray? then OnEndArray else OnEndMap;
    var inner := EventsBefore(j, Size(j));
    EventsAround(j);
    EmptyContainers(j);
    RunFirst(m, first, inner + [last]);
    RunAppend(Handle(m, first), inner, [last]);
    RunLast(Run(Handle(m, first), inner), last);
  }

  lemma EventsAround(j: Json)
    requires !j.JScalar?
    ensures Events(j) == [if j.JArray? then OnStartArray else OnStartMap]
                         + (EventsBefore(j, Size(j)) + [if j.JArray? then OnEndArray else OnEndMap])
  {
    hide EventsBefore;
  }

  lemma EmptyContainers(j: Json)
    requires !j.JScalar?
    ensures ValueBefore(j, 0) == if j.JArray? then List([]) else Dict(map[])
  {
  }

  lemma RunFirst(m: Machine, ev: Event, more: seq<Event>)
    ensures Run(Next(m), [ev] + more) == Run(Handle(m, ev), more)
  {
    hide Handle;
    assert ([ev] + more)[1..] == more;
  }

  lemma RunLast(o: Outcome, ev: Event)
    requires o.Next?
    ensures Run(o, [ev]) == Handle(o.m, ev)
  {
    hide Handle;
    assert [ev][1..] == [];
  }

  /**
   * Over a whole document the machine rebuilds exactly the document's value, whatever the root held before, and empties
   * its stack, if and only if the root is an array or an object; any other root is refused.
   */
  lemma RunDocument(root: Value, j: Json)
    requires Tree(j)
    ensures
      var o := Run(Next(Init(root)), Events(j));
      if j.JScalar? then o == Refused
      else o.Next? && o.m.root == ValueOf(j) && o.m.stack == [] && o.m.container == None
  {
    hide Run, Events, EventsBefore, ValueBefore, Start, End, Put, Has;
    if j.JScalar? {
      ScalarRoot(root, j.v);
    } else {
      var empty := ValueBefore(j, 0);
      var kind := if j.JArray? then InArray else InMap;
      RootStarts(root, j);
      var m1 := Start(Init(root), empty, kind).m;
      RunBefore(m1, j, Size(j), [], []);
      var m2 := Run(Next(m1), EventsBefore(j, Size(j))).m;
      RootEnds(m1, m2, ValueOf(j));
      RunAround(Init(root), j);
    }
  }

  lemma ScalarRoot(root: Value, v: Value)
    ensures Run(Next(Init(root)), Events(JScalar(v))) == Refused
  {
    assert Handle(Init(root), OnScalar(v)) == Refused;
  }

  lemma RootStarts(root: Value, j: Json)
    requires !j.JScalar?
    ensures
      var o := Start(Init(root), ValueBefore(j, 0), if j.JArray? then InArray else InMap);
      o.Next? && Filling(o.m, [], ValueBefore(j, 0), [])
  {
    var none: seq<Path> := [];
    assert none + [[]] == [[]];
  }

  lemma RootEnds(m1: Machine, m: Machine, x: Value)
    requires Reached(Next(m), m1, [], x, [])
    ensures End(m) == Next(Machine(x, None, m.value, m.kind, []))
  {
    var none: seq<Path> := [];
    assert none + [[]] == [[]];
  }

  // ---- The value of a document.

  /** Every key is kept, and no other. */
  lemma {:induction false} KeysKept(j: Json, n: nat, k: string)
    requires j.JObject? && n <= Size(j)
    ensures k in ValueBefore(j, n).members <==> exists i :: 0 <= i < n && j.members[i].0 == k
  {
    hide ValueOf;
    if n > 0 {
      KeysKept(j, n - 1, k);
      assert j.members[n-1].0 == k ==> k in ValueBefore(j, n).members;
    }
  }

  /** Of several members with one key, the value of the last is the one that is kept. */
  lemma {:induction false} LastMemberCounts(j: Json, n: nat, i: nat)
    requires j.JObject? && i < n <= Size(j)
    requires forall l :: i < l < n ==> j.members[l].0 != j.members[i].0
    ensures var d := ValueBefore(j, n).members;
            j.members[i].0 in d && d[j.members[i].0] == ValueOf(j.members[i].1)
  {
    hide ValueOf;
    if i < n - 1 {
      LastMemberCounts(j, n - 1, i);
    }
  }

  /** The document writes the value: its members are the map's entries, in any order and with distinct keys. */
  predicate Writes(j: Json, v: Value)
    decreases j
  {
    match (j, v)
    case (JScalar(a), _) => Scalar(a) && v == a
    case (JArray(items), List(l)) => |items| == |l| && forall i :: 0 <= i < |l| ==> Writes(items[i], l[i])
    case (JObject(ms), Dict(d)) =>
      && (forall i, l :: 0 <= i < l < |ms| ==> ms[i].0 != ms[l].0)
      && (forall k :: k in d ==> exists i :: 0 <= i < |ms| && ms[i].0 == k)
      && (forall i :: 0 <= i < |ms| ==> ms[i].0 in d && Writes(ms[i].1, d[ms[i].0]))
    case _ => false
  }

  /** A document with distinct keys is rebuilt exactly, whatever the order of its members. */
  lemma {:induction false} Rebuilds(j: Json, v: Value)
    requires Writes(j, v)
    ensures Tree(j) && ValueOf(j) == v
  {
    match j
    case JScalar(_) =>
    case JArray(items) =>
      forall i | 0 <= i < |items|
        ensures Tree(items[i]) && ValueOf(items[i]) == v.items[i]
      {
        Rebuilds(items[i], v.items[i]);
      }
      ItemsBefore(j, |items|);
      assert ValueOf(j).items == v.items;
    case JObject(ms) =>
      forall i | 0 <= i < |ms|
        ensures Tree(ms[i].1) && ValueOf(ms[i].1) == v.members[ms[i].0]
      {
        Rebuilds(ms[i].1, v.members[ms[i].0]);
      }
      SameMembers(j, v);
  }

  lemma SameMembers(j: Json, v: Value)
    requires j.JObject? && Writes(j, v)
    requires forall i :: 0 <= i < |j.members| ==> ValueOf(j.members[i].1) == v.members[j.members[i].0]
    ensures ValueOf(j) == v
  {
    var w := ValueBefore(j, Size(j));
    assert ValueOf(j) == w;
    hide ValueOf, ValueBefore;
    forall k: string
      ensures k in w.members <==> k in v.members
      ensures k in v.members ==> w.members[k] == v.members[k]
    {
      KeysKept(j, Size(j), k);
      if k in v.members {
        var i :| 0 <= i < |j.members| && j.members[i].0 == k;
        LastMemberCounts(j, Size(j), i);
      }
    }
    assert w.members == v.members;
  }

  lemma {:induction false} ItemsBefore(j: Json, n: nat)
    requires j.JArray? && n <= Size(j)
    ensures forall i :: 0 <= i < n ==> ValueBefore(j, n).items[i] == ValueOf(j.items[i])
  {
    if n > 0 {
      ItemsBefore(j, n - 1);
    }
  }

  // ---- The handlers.

  /** One call of the parser: a number with its text, or any other event. */
  datatype Call = OnNumberText(l: Literal) | Other(ev: Event)

  /** The events of the calls, each number classified with what `errno` holds when its turn comes. */
  function Classified(calls: seq<Call>, erange: bool): seq<Event> {
    if calls == [] then []
    else [EventOf(calls[0], erange)] + Classified(calls[1..], ErangeOf(calls[0], erange))
  }

  function EventOf(c: Call, erange: bool): Event {
    match c
    case OnNumberText(l) => OnScalar(Num(ParseNumberOf(l.text, erange)))
    case Other(ev) => ev
  }

  function ErangeOf(c: Call, erange: bool): bool {
    match c
    case OnNumberText(l) => ErangeAfter(l, erange)
    case Other(_) => erange
  }

  predicate CallsFit(calls: seq<Call>) {
    forall i :: 0 <= i < |calls| && calls[i].OnNumberText? ==> |calls[i].l.text| < NUMERIC_BUFFER_SIZE
  }

  class DynamicConstructor {
    var root: Value
    var container: Option<Path>
    var value: Option<Path>
    var kind: Kind
    var stack: seq<Path>
    var erange: bool   // whether the global `errno` is ERANGE

    ghost function State(): Machine
      reads this
    {
      Machine(root, container, value, kind, stack)
    }

    constructor (root: Value, erange: bool)
      ensures State() == Init(root) && this.erange == erange
    {
      this.root, container, value, kind, stack := root, Some([]), None, Undefined, [];
      this.erange := erange;
    }

    /** What `o` says a handler did, starting from `before`. */
    ghost predicate Did(o: Outcome, before: Machine, ok: bool)
      reads this
    {
      match o
      case Next(m) => ok && State() == m
      case Refused => !ok && State() == before
      case Invalid => false
    }

    /** The branches that OnNull, OnBoolean, OnNumber and OnString share. */
    method StoreScalar(v: Value) returns (ok: bool)
      requires Handle(State(), OnScalar(v)) != Invalid
      modifies this
      ensures Did(Handle(old(State()), OnScalar(v)), old(State()), ok) && erange == old(erange)
    {
      if kind == InMap {
        root := Put(root, value.value, v);
      } else if kind == InArray {
        PushBack(v);
      } else {
        return false;
      }
      return true;
    }

    /** `current_container_->PushBack(v)`, which does nothing to what is not a list. */
    method PushBack(v: Value)
      requires container.Some? && Has(root, container.value)
      modifies this`root
      ensures var x := At(old(root), container.value);
              root == if x.List? then Put(old(root), container.value, List(x.items + [v])) else old(root)
    {
      var x := At(root, container.value);
      if x.List? {
        root := Put(root, container.value, List(x.items + [v]));
      }
    }

    method OnNull() returns (ok: bool)
      requires Handle(State(), OnScalar(Undef)) != Invalid
      modifies this
      ensures Did(Handle(old(State()), OnScalar(Undef)), old(State()), ok) && erange == old(erange)
    {
      ok := StoreScalar(Undef);
    }

    method OnBoolean(v: int) returns (ok: bool)
      requires Handle(State(), OnScalar(Bool(v != 0))) != Invalid
      modifies this
      ensures Did(Handle(old(State()), OnScalar(Bool(v != 0))), old(State()), ok) && erange == old(erange)
    {
      ok := StoreScalar(Bool(v != 0));
    }

    /** The literal is parsed, and `errno` updated, only where a value is expected. */
    method OnNumber(l: Literal) returns (ok: bool)
      requires |l.text| < NUMERIC_BUFFER_SIZE
      requires Handle(State(), OnScalar(Num(ParseNumberOf(l.text, erange)))) != Invalid
      modifies this
      ensures Did(Handle(old(State()), OnScalar(Num(ParseNumberOf(l.text, old(erange))))), old(State()), ok)
      ensures erange == if ok then ErangeAfter(l, old(erange)) else old(erange)
    {
      var number := ParseNumberOf(l.text, erange);
      ok := StoreScalar(Num(number));
      if ok {
        erange := ErangeAfter(l, erange);
      }
    }

    method OnString(s: string) returns (ok: bool)
      requires Handle(State(), OnScalar(Text(s))) != Invalid
      modifies this
      ensures Did(Handle(old(State()), OnScalar(Text(s))), old(State()), ok) && erange == old(erange)
    {
      ok := StoreScalar(Text(s));
    }

    /** `OnStartMap` and `OnStartArray`, which differ in the new container and its kind. */
    method StartContainer(empty: Value, newKind: Kind) returns (ok: bool)
      requires Start(State(), empty, newKind) != Invalid
      modifies this
      ensures Did(Start(old(State()), empty, newKind), old(State()), ok) && ok && erange == old(erange)
    {
      if kind == InMap {
        root := Put(root, value.value, empty);
        container := value;
      } else if kind == InArray {
        var size := |At(root, container.value).items|;
        PushBack(empty);
        container := Some(container.value + [Index(size)]);
      } else {
        root := Put(root, container.value, empty);
      }
      kind := newKind;
      stack := stack + [container.value];
      return true;
    }

    method OnStartMap() returns (ok: bool)
      requires Handle(State(), Event.OnStartMap) != Invalid
      modifies this
      ensures Did(Handle(old(State()), Event.OnStartMap), old(State()), ok) && erange == old(erange)
    {
      ok := StartContainer(Dict(map[]), InMap);
    }

    method OnStartArray() returns (ok: bool)
      requires Handle(State(), Event.OnStartArray) != Invalid
      modifies this
      ensures Did(Handle(old(State()), Event.OnStartArray), old(State()), ok) && erange == old(erange)
    {
      ok := StartContainer(List([]), InArray);
    }

    method OnMapKey(key: string) returns (ok: bool)
      requires Handle(State(), Event.OnMapKey(key)) != Invalid
      modifies this
      ensures Did(Handle(old(State()), Event.OnMapKey(key)), old(State()), ok) && erange == old(erange)
    {
      var c := container.value;
      var d := At(root, c).members;
      if key !in d {
        d := d[key := Undef];
      }
      root := Put(root, c, Dict(d));
      value := Some(c + [Key(key)]);
      return true;
    }

    /** `OnEndMap` and `OnEndArray`, which have the same body. */
    method EndContainer() returns (ok: bool)
      requires End(State()) != Invalid
      modifies this
      ensures Did(End(old(State())), old(State()), ok) && erange == old(erange)
    {
      stack := stack[..|stack|-1];
      if stack != [] {
        container := Some(stack[|stack|-1]);
        kind := if At(root, container.value).Dict? then InMap else InArray;
      } else {
        container := None;
      }
      return true;
    }

    /** The parser's calls, until a handler returns false. */
    method Feed(calls: seq<Call>) returns (ok: bool)
      requires CallsFit(calls) && Run(Next(State()), Classified(calls, erange)) != Invalid
      modifies this
      ensures ok == Run(Next(old(State())), Classified(calls, old(erange))).Next?
      ensures ok ==> Next(State()) == Run(Next(old(State())), Classified(calls, old(erange)))
    {
      hide Handle, ParseNumberOf, ErangeAfter, Run, Classified;
      ghost var end := Run(Next(State()), Classified(calls, erange));
      assert calls[0..] == calls;
      var i := 0;
      ok := true;
      while i < |calls| && ok
        invariant 0 <= i <= |calls|
        invariant end == if ok then Run(Next(State()), Classified(calls[i..], erange)) else Refused
      {
        assert calls[i..][1..] == calls[i+1..];
        RunCall(State(), calls[i..], erange);
        match calls[i] {
          case OnNumberText(l) => ok := OnNumber(l);
          case Other(ev) => ok := Dispatch(ev);
        }
        i := i + 1;
      }
      if ok {
        assert calls[i..] == [];
        RunNothing(State(), erange);
      }
    }

    /** The callback table. */
    method Dispatch(ev: Event) returns (ok: bool)
      requires Handle(State(), ev) != Invalid
      modifies this
      ensures Did(Handle(old(State()), ev), old(State()), ok) && erange == old(erange)
    {
      match ev {
        case OnScalar(v) => ok := StoreScalar(v);
        case OnStartMap => ok := OnStartMap();
        case OnMapKey(key) => ok := OnMapKey(key);
        case OnEndMap => ok := EndContainer();
        case OnStartArray => ok := OnStartArray();
        case OnEndArray => ok := EndContainer();
      }
    }
  }

  lemma RunNothing(m: Machine, erange: bool)
    ensures Run(Next(m), Classified([], erange)) == Next(m)
  {
  }

  /** The first of some calls, and the rest. */
  lemma RunCall(m: Machine, calls: seq<Call>, erange: bool)
    requires calls != []
    ensures
      var o := Handle(m, EventOf(calls[0], erange));
      Run(Next(m), Classified(calls, erange))
      == if o.Next? then Run(o, Classified(calls[1..], ErangeOf(calls[0], erange))) else o
  {
    hide Handle, EventOf, ErangeOf;
    var events := Classified(calls, erange);
    assert events != [] && Run(Next(m), events) == Run(Handle(m, events[0]), events[1..]);
  }

  /**
   * `DynamicFromYajl` on the calls of a document, whose numbers are classified in turn: its value, or an undefined
   * value and an error.
   */
  method DynamicFromDocument(calls: seq<Call>, erange: bool, ghost j: Json) returns (result: Value, ok: bool)
    requires Tree(j) && CallsFit(calls) && Classified(calls, erange) == Events(j)
    ensures ok == !j.JScalar?
    ensures result == if ok then ValueOf(j) else Undef
  {
    RunDocument(Undef, j);
    var constructed := new DynamicConstructor(Undef, erange);
    ok := constructed.Feed(calls);
    result := if ok then constructed.root else Undef;
  }
}
