/** Grouping as functions: aggregators, the group map, and the batch and incremental tables made from it. */
module GroupSpec {
  import opened Types
  import opened KeyOrder
  import opened OrderedMap
  import opened TableSpec
  import opened RefCounts

  const INT64_MAX := 0x7FFF_FFFF_FFFF_FFFF
  const INT64_MIN := -0x8000_0000_0000_0000

  datatype AggregatorType = Sum | Count | Min | Max

  datatype Aggregator = Aggregator(column: nat, t: int, kind: AggregatorType)

  /** Two's-complement value of a 64-bit signed result. */
  function Wrap(i: int): int {
    (i + 0x8000_0000_0000_0000) % 0x1_0000_0000_0000_0000 - 0x8000_0000_0000_0000
  }

  /** The constructor: sums and counts start at zero, minima at the largest value, maxima at the smallest. */
  function DefaultData(a: Aggregator): Data {
    match a.t
    case 1 => I64(if a.kind.Min? then INT64_MAX else if a.kind.Max? then INT64_MIN else 0)
    case 3 => F64(if a.kind.Min? then 9223372036854775808.0 else if a.kind.Max? then -9223372036854775808.0 else 0.0)
    case 4 => U64(if a.kind.Min? then 1 else 0)
    case _ => U64(if a.kind.Min? then SIZE_T_COUNT - 1 else 0)
  }

  /** An aggregator over a column of a type that can be summed or compared; strings are refused at creation. */
  predicate AggregatorOk(columns: seq<int>, a: Aggregator) {
    if a.kind.Count? then a.t == UNSIGNED_INTEGER
    else a.column < |columns| && columns[a.column] == a.t
         && a.t in {INTEGER, UNSIGNED_INTEGER, FLOAT, BOOL, DATE_TIME}
  }

  /**
   * `Aggregator::Update`. BOOL and DATE_TIME have no addition, and DATE_TIME has no minimum or maximum: the default
   * operations leave the result as it is.
   */
  function Update(columns: seq<int>, a: Aggregator, acc: Data, row: Row): (r: Data)
    requires AggregatorOk(columns, a) && RowTyped(row, columns) && HasType(acc, a.t)
    ensures HasType(r, a.t)
  {
    if a.kind.Count? then U64((acc.u + 1) % SIZE_T_COUNT)
    else
      assert HasType(row[a.column], a.t);
      match a.kind
      case Sum =>
        if a.t == INTEGER then I64(Wrap(acc.i + row[a.column].i))
        else if a.t == UNSIGNED_INTEGER then U64((acc.u + row[a.column].u) % SIZE_T_COUNT)
        else if a.t == FLOAT then F64(acc.f + row[a.column].f)
        else acc
      case Min =>
        if a.t == DATE_TIME then acc
        else if Below(MakeKeyItem(acc), MakeKeyItem(row[a.column])) then acc else row[a.column]
      case Max =>
        // the integer types keep the accumulator on a tie, FLOAT takes the new value
        if a.t == DATE_TIME then acc
        else if a.t == FLOAT then
          if Below(MakeKeyItem(row[a.column]), MakeKeyItem(acc)) then acc else row[a.column]
        else
          if Below(MakeKeyItem(acc), MakeKeyItem(row[a.column])) then row[a.column] else acc
  }

  datatype Def = Def(columns: seq<int>, cols: seq<nat>, mask: seq<int>, aggrs: seq<Aggregator>)

  /** The group definition fits the source columns: mask entries are the affinities of the grouping columns. */
  predicate DefOk(d: Def) {
    && |d.cols| == |d.mask| <= MAX_KEY_SIZE
    && (forall c :: 0 <= c < |d.columns| ==> ColumnType(d.columns[c]))
    && (forall i :: 0 <= i < |d.cols| ==>
          d.cols[i] < |d.columns| && Affinity(d.columns[d.cols[i]]) == Some(Abs(d.mask[i])))
    && (forall i :: 0 <= i < |d.aggrs| ==> AggregatorOk(d.columns, d.aggrs[i]))
  }

  /** A map entry: the key items as first stored, with the strings they point to, and the aggregated results. */
  datatype Group = Group(items: Row, results: Row)

  type GroupMap = OMap<Group>

  lemma GroupKeyStored(d: Def, row: Row)
    requires DefOk(d) && RowTyped(row, d.columns)
    ensures StoredKey(d.mask, KeyOf(row, d.cols))
  {
    forall i | 0 <= i < |d.mask|
      ensures ItemHasType(KeyOf(row, d.cols)[i], Abs(d.mask[i]))
    {
      assert HasType(row[d.cols[i]], d.columns[d.cols[i]]);
    }
  }

  predicate ResultsTyped(d: Def, results: Row) {
    |results| == |d.aggrs| && forall i :: 0 <= i < |results| ==> HasType(results[i], d.aggrs[i].t)
  }

  function Defaults(d: Def): (results: Row)
    requires DefOk(d)
    ensures ResultsTyped(d, results)
  {
    assert forall i :: 0 <= i < |d.aggrs| ==> AggregatorOk(d.columns, d.aggrs[i]);
    seq(|d.aggrs|, i requires 0 <= i < |d.aggrs| => DefaultData(d.aggrs[i]))
  }

  function UpdateAll(d: Def, results: Row, row: Row): (results': Row)
    requires DefOk(d) && RowTyped(row, d.columns) && ResultsTyped(d, results)
    ensures ResultsTyped(d, results')
  {
    seq(|d.aggrs|, i requires 0 <= i < |d.aggrs| => Update(d.columns, d.aggrs[i], results[i], row))
  }

  predicate GroupsOk(d: Def, m: GroupMap) {
    && Ascending(d.mask, m)
    && forall i :: 0 <= i < |m| ==> |m[i].val.items| == |d.cols| && ResultsTyped(d, m[i].val.results)
  }

  predicate NewKey(d: Def, m: GroupMap, row: Row)
    requires DefOk(d) && RowTyped(row, d.columns) && GroupsOk(d, m)
  {
    GroupKeyStored(d, row);
    Find(d.mask, m, KeyOf(row, d.cols)).None?
  }

  /** `GroupIndex::UpdateIndex`: the group of the row's key is updated, or created from the defaults. */
  function Feed(d: Def, m: GroupMap, row: Row): (m': GroupMap)
    requires DefOk(d) && RowTyped(row, d.columns) && GroupsOk(d, m)
    ensures GroupsOk(d, m')
  {
    hide LexLess, KeyTyped, Lookup;
    GroupKeyStored(d, row);
    var k := KeyOf(row, d.cols);
    var p := LowerBound(d.mask, m, k);
    FindLookup(d.mask, m, k);
    if Find(d.mask, m, k).Some? then
      m[p := Entry(m[p].key, m[p].val.(results := UpdateAll(d, m[p].val.results, row)))]
    else
      InsertAscending(d.mask, m, k, Group(ItemsOf(row, d.cols), UpdateAll(d, Defaults(d), row)));
      InsertAt(m, p, k, Group(ItemsOf(row, d.cols), UpdateAll(d, Defaults(d), row)))
  }

  function FeedAll(d: Def, rows: seq<Row>): (m: GroupMap)
    requires DefOk(d) && RowsTyped(rows, d.columns)
    ensures GroupsOk(d, m)
  {
    if rows == [] then [] else Feed(d, FeedAll(d, rows[..|rows|-1]), rows[|rows|-1])
  }

  /** `MakeRow`: key cells, then aggregate cells. */
  function RowOf(e: Entry<Group>): Row {
    e.val.items + e.val.results
  }

  function RowsOf(m: GroupMap): seq<Row> {
    seq(|m|, i requires 0 <= i < |m| => RowOf(m[i]))
  }

  // What the groups hold

  function Fold(columns: seq<int>, a: Aggregator, rows: seq<Row>): (r: Data)
    requires AggregatorOk(columns, a) && RowsTyped(rows, columns)
    ensures HasType(r, a.t)
  {
    if rows == [] then DefaultData(a)
    else Update(columns, a, Fold(columns, a, rows[..|rows|-1]), rows[|rows|-1])
  }

  /** The rows with key `k`, in source order. */
  function RowsWith(d: Def, rows: seq<Row>, k: Key): (g: seq<Row>)
    requires DefOk(d) && RowsTyped(rows, d.columns)
    ensures RowsTyped(g, d.columns)
    ensures forall row :: row in g <==> row in rows && KeyOf(row, d.cols) == k
  {
    if rows == [] then []
    else
      var n := |rows| - 1;
      assert rows == rows[..n] + [rows[n]];
      RowsWith(d, rows[..n], k) + if KeyOf(rows[n], d.cols) == k then [rows[n]] else []
  }

  /** The group of key `k`: the key cells of its first row, and every aggregate folded over its rows in order. */
  ghost predicate GroupRight(d: Def, rows: seq<Row>, k: Key, g: Group)
    requires DefOk(d) && RowsTyped(rows, d.columns)
  {
    var own := RowsWith(d, rows, k);
    && own != [] && g.items == ItemsOf(own[0], d.cols)
    && |g.results| == |d.aggrs|
    && forall i :: 0 <= i < |d.aggrs| ==> g.results[i] == Fold(d.columns, d.aggrs[i], own)
  }

  /**
   * `Group` yields one group per distinct key, in strictly increasing comparator order, each holding the left folds
   * over that group's rows in source order.
   */
  lemma {:induction false} GroupsRight(d: Def, rows: seq<Row>)
    requires DefOk(d) && RowsTyped(rows, d.columns)
    ensures
      var m := FeedAll(d, rows);
      && Ascending(d.mask, m)
      && (forall p :: 0 <= p < |m| ==> GroupRight(d, rows, m[p].key, m[p].val))
      && (forall row :: row in rows ==> KeyOf(row, d.cols) in Keys(m))
    decreases |rows|
  {
    hide LexLess, KeyTyped;
    if rows != [] {
      var n := |rows| - 1;
      var rows0, row := rows[..n], rows[n];
      assert rows == rows0 + [row];
      var m0, k := FeedAll(d, rows0), KeyOf(row, d.cols);
      GroupsRight(d, rows0);
      FeedRight(d, rows0, m0, row);
    }
  }

  lemma FeedRight(d: Def, rows0: seq<Row>, m0: GroupMap, row: Row)
    requires DefOk(d) && RowsTyped(rows0 + [row], d.columns) && RowsTyped(rows0, d.columns)
    requires RowTyped(row, d.columns) && GroupsOk(d, m0)
    requires forall p :: 0 <= p < |m0| ==> GroupRight(d, rows0, m0[p].key, m0[p].val)
    requires forall r :: r in rows0 ==> KeyOf(r, d.cols) in Keys(m0)
    ensures
      var m := Feed(d, m0, row);
      && (forall p :: 0 <= p < |m| ==> GroupRight(d, rows0 + [row], m[p].key, m[p].val))
      && (forall r :: r in rows0 + [row] ==> KeyOf(r, d.cols) in Keys(m))
  {
    hide LexLess, KeyTyped, GroupRight;
    var rows, k, m := rows0 + [row], KeyOf(row, d.cols), Feed(d, m0, row);
    GroupKeyStored(d, row);
    var p := LowerBound(d.mask, m0, k);
    FindLookup(d.mask, m0, k);
    forall q | 0 <= q < |m0| && m0[q].key != k
      ensures GroupRight(d, rows, m0[q].key, m0[q].val)
    {
      OtherGroup(d, rows0, row, m0[q].key, m0[q].val);
    }
    if Find(d.mask, m0, k).Some? {
      ExtendGroup(d, rows0, row, m0[p].val);
      forall q | 0 <= q < |m0| && q != p
        ensures m0[q].key != k
      {
        DistinctKeys(d.mask, m0, q, p);
      }
      LookupSameKeys(d.mask, m0, m);
    } else {
      forall q | 0 <= q < |m0|
        ensures m0[q].key != k
      {
        LookupAt(d.mask, m0, q);
      }
      StartGroup(d, rows0, row, Keys(m0));
      InsertKeys(m0, p, k, Group(ItemsOf(row, d.cols), UpdateAll(d, Defaults(d), row)));
    }
  }

  lemma OtherGroup(d: Def, rows0: seq<Row>, row: Row, k: Key, g: Group)
    requires DefOk(d) && RowsTyped(rows0 + [row], d.columns) && RowsTyped(rows0, d.columns) && RowTyped(row, d.columns)
    requires GroupRight(d, rows0, k, g) && KeyOf(row, d.cols) != k
    ensures GroupRight(d, rows0 + [row], k, g)
  {
    assert (rows0 + [row])[..|rows0|] == rows0;
    assert RowsWith(d, rows0 + [row], k) == RowsWith(d, rows0, k);
  }

  lemma ExtendGroup(d: Def, rows0: seq<Row>, row: Row, g: Group)
    requires DefOk(d) && RowsTyped(rows0 + [row], d.columns) && RowsTyped(rows0, d.columns) && RowTyped(row, d.columns)
    requires GroupRight(d, rows0, KeyOf(row, d.cols), g) && ResultsTyped(d, g.results)
    ensures GroupRight(d, rows0 + [row], KeyOf(row, d.cols), g.(results := UpdateAll(d, g.results, row)))
  {
    var k := KeyOf(row, d.cols);
    assert (rows0 + [row])[..|rows0|] == rows0;
    var own := RowsWith(d, rows0, k);
    assert RowsWith(d, rows0 + [row], k) == own + [row];
    assert (own + [row])[..|own|] == own;
  }

  lemma NoElement(rows: seq<Row>)
    ensures (forall row :: row !in rows) <==> rows == []
  {
    assert rows != [] ==> rows[0] in rows;
  }

  lemma StartGroup(d: Def, rows0: seq<Row>, row: Row, keys: set<Key>)
    requires DefOk(d) && RowsTyped(rows0 + [row], d.columns) && RowsTyped(rows0, d.columns) && RowTyped(row, d.columns)
    requires KeyOf(row, d.cols) !in keys && forall r :: r in rows0 ==> KeyOf(r, d.cols) in keys
    ensures GroupRight(d, rows0 + [row], KeyOf(row, d.cols),
                       Group(ItemsOf(row, d.cols), UpdateAll(d, Defaults(d), row)))
  {
    var k := KeyOf(row, d.cols);
    assert (rows0 + [row])[..|rows0|] == rows0;
    var own := RowsWith(d, rows0, k);
    NoElement(own);
    assert RowsWith(d, rows0 + [row], k) == [row];
    assert [row][..0] == [];
    var results := UpdateAll(d, Defaults(d), row);
    forall i | 0 <= i < |d.aggrs|
      ensures results[i] == Fold(d.columns, d.aggrs[i], [row])
    {
      assert Fold(d.columns, d.aggrs[i], []) == DefaultData(d.aggrs[i]);
    }
  }

  // COUNT over all groups

  /** The total of result column `j` over all groups. */
  function CountTotal(d: Def, m: GroupMap, j: nat): nat
    requires j < |d.aggrs| && d.aggrs[j].t == UNSIGNED_INTEGER
    requires forall i :: 0 <= i < |m| ==> ResultsTyped(d, m[i].val.results)
  {
    if m == [] then 0
    else
      assert ResultsTyped(d, m[0].val.results);
      m[0].val.results[j].u + CountTotal(d, m[1..], j)
  }

  lemma {:induction false} CountTotalInsert(d: Def, m: GroupMap, p: nat, e: Entry<Group>, j: nat)
    requires j < |d.aggrs| && d.aggrs[j].t == UNSIGNED_INTEGER && p <= |m| && ResultsTyped(d, e.val.results)
    requires forall i :: 0 <= i < |m| ==> ResultsTyped(d, m[i].val.results)
    ensures CountTotal(d, m[..p] + [e] + m[p..], j) == CountTotal(d, m, j) + e.val.results[j].u
    decreases |m|
  {
    var m' := m[..p] + [e] + m[p..];
    if p == 0 {
      assert m'[1..] == m;
    } else {
      CountTotalInsert(d, m[1..], p - 1, e, j);
      assert m'[1..] == m[1..][..p-1] + [e] + m[1..][p-1..];
    }
  }

  lemma CountTotalReplace(d: Def, m: GroupMap, p: nat, g: Group, j: nat)
    requires j < |d.aggrs| && d.aggrs[j].t == UNSIGNED_INTEGER && p < |m| && ResultsTyped(d, g.results)
    requires forall i :: 0 <= i < |m| ==> ResultsTyped(d, m[i].val.results)
    ensures CountTotal(d, m[p := Entry(m[p].key, g)], j) == CountTotal(d, m, j) - m[p].val.results[j].u + g.results[j].u
    ensures m[p].val.results[j].u <= CountTotal(d, m, j)
  {
    var rest, e := m[..p] + m[p+1..], Entry(m[p].key, g);
    CountTotalInsert(d, rest, p, m[p], j);
    CountTotalInsert(d, rest, p, e, j);
    assert m == rest[..p] + [m[p]] + rest[p..];
    assert m[p := e] == rest[..p] + [e] + rest[p..];
  }

  lemma FeedCounts(d: Def, m: GroupMap, row: Row, j: nat)
    requires DefOk(d) && RowTyped(row, d.columns) && GroupsOk(d, m)
    requires j < |d.aggrs| && d.aggrs[j].kind.Count?
    ensures d.aggrs[j].t == UNSIGNED_INTEGER
    ensures CountTotal(d, m, j) < SIZE_T_COUNT - 1 ==> CountTotal(d, Feed(d, m, row), j) == CountTotal(d, m, j) + 1
  {
    hide LexLess, KeyTyped, CountTotal;
    assert AggregatorOk(d.columns, d.aggrs[j]);
    GroupKeyStored(d, row);
    var k := KeyOf(row, d.cols);
    var p := LowerBound(d.mask, m, k);
    FindLookup(d.mask, m, k);
    if Find(d.mask, m, k).Some? {
      CountTotalReplace(d, m, p, m[p].val.(results := UpdateAll(d, m[p].val.results, row)), j);
    } else {
      var g := Group(ItemsOf(row, d.cols), UpdateAll(d, Defaults(d), row));
      CountTotalInsert(d, m, p, Entry(k, g), j);
    }
  }

  /** With COUNT, the counts of all groups sum to the height of the source. */
  lemma {:induction false} CountsSum(d: Def, rows: seq<Row>, j: nat)
    requires DefOk(d) && RowsTyped(rows, d.columns) && j < |d.aggrs| && d.aggrs[j].kind.Count?
    requires |rows| < SIZE_T_COUNT
    ensures d.aggrs[j].t == UNSIGNED_INTEGER && CountTotal(d, FeedAll(d, rows), j) == |rows|
    decreases |rows|
  {
    hide LexLess, KeyTyped, Feed;
    assert AggregatorOk(d.columns, d.aggrs[j]);
    if rows != [] {
      var n := |rows| - 1;
      CountsSum(d, rows[..n], j);
      FeedCounts(d, FeedAll(d, rows[..n]), rows[n], j);
    }
  }

  // The incremental path

  /** The group map, the grouped table's rows and the string counts. */
  datatype Grouped = Grouped(m: GroupMap, rows: seq<Row>, counts: Counts)

  /** `UpdateIndex(data, types)`: a new key appends its row to the grouped table in arrival order. */
  function FeedRow(d: Def, g: Grouped, row: Row): (g': Grouped)
    requires DefOk(d) && RowTyped(row, d.columns) && GroupsOk(d, g.m)
    ensures GroupsOk(d, g'.m)
  {
    var m' := Feed(d, g.m, row);
    if NewKey(d, g.m, row) then
      GroupKeyStored(d, row);
      var p := LowerBound(d.mask, g.m, KeyOf(row, d.cols));
      Grouped(m', g.rows + [RowOf(m'[p])], Acquire(g.counts, RowOf(m'[p])))
    else Grouped(m', g.rows, g.counts)
  }

  /** `Build()`: the rows are overwritten in key order; no count changes. */
  function Refresh(g: Grouped): Grouped
    requires |g.m| <= |g.rows|
  {
    g.(rows := RowsOf(g.m) + g.rows[|g.m|..])
  }

  function KeyParts(rows: seq<Row>, n: nat): seq<Row>
    requires forall x :: 0 <= x < |rows| ==> n <= |rows[x]|
  {
    seq(|rows|, x requires 0 <= x < |rows| => rows[x][..n])
  }

  function Items(m: GroupMap): seq<Row> {
    seq(|m|, i requires 0 <= i < |m| => m[i].val.items)
  }

  /** Key cells, then aggregate cells, which are never strings. */
  predicate GroupedRow(d: Def, row: Row) {
    |row| == |d.cols| + |d.aggrs| && forall c :: |d.cols| <= c < |row| ==> !row[c].Str?
  }

  /**
   * Between calls the grouped table has as many rows as the map has keys, and its key cells are those of the map in
   * some order.
   */
  ghost predicate GroupedOk(d: Def, g: Grouped) {
    && DefOk(d) && GroupsOk(d, g.m) && |g.rows| == |g.m|
    && (forall x :: 0 <= x < |g.rows| ==> GroupedRow(d, g.rows[x]))
    && multiset(KeyParts(g.rows, |d.cols|)) == multiset(Items(g.m))
  }

  lemma GroupedEntry(d: Def, m: GroupMap, p: nat)
    requires DefOk(d) && GroupsOk(d, m) && p < |m|
    ensures GroupedRow(d, RowOf(m[p])) && RowOf(m[p])[..|d.cols|] == m[p].val.items
  {
    var row := RowOf(m[p]);
    forall c | |d.cols| <= c < |row|
      ensures !row[c].Str?
    {
      assert HasType(row[c], d.aggrs[c - |d.cols|].t);
      assert AggregatorOk(d.columns, d.aggrs[c - |d.cols|]);
    }
  }

  /** Accepting a row keeps the grouped table in step with the map. */
  lemma FeedRowOk(d: Def, g: Grouped, row: Row)
    requires GroupedOk(d, g) && RowTyped(row, d.columns)
    ensures GroupedOk(d, FeedRow(d, g, row))
  {
    hide LexLess, KeyTyped, RowOf, UpdateAll, Defaults, ItemsOf;
    GroupKeyStored(d, row);
    var k, n := KeyOf(row, d.cols), |d.cols|;
    var p := LowerBound(d.mask, g.m, k);
    var g' := FeedRow(d, g, row);
    FindLookup(d.mask, g.m, k);
    if NewKey(d, g.m, row) {
      GroupedEntry(d, g'.m, p);
      var last := RowOf(g'.m[p]);
      assert |last| >= n by { assert RowOf(g'.m[p])[..n] == g'.m[p].val.items; }
      KeyPartsSnoc(g.rows, last, n);
      ItemsInsert(g.m, p, g'.m[p]);
    } else {
      assert Items(g'.m) == Items(g.m);
    }
  }

  lemma KeyPartsSnoc(rows: seq<Row>, row: Row, n: nat)
    requires n <= |row| && forall x :: 0 <= x < |rows| ==> n <= |rows[x]|
    ensures multiset(KeyParts(rows + [row], n)) == multiset(KeyParts(rows, n)) + multiset{row[..n]}
  {
    assert KeyParts(rows + [row], n) == KeyParts(rows, n) + [row[..n]];
  }

  lemma ItemsInsert(m: GroupMap, p: nat, e: Entry<Group>)
    requires p <= |m|
    ensures multiset(Items(m[..p] + [e] + m[p..])) == multiset(Items(m)) + multiset{e.val.items}
  {
    var a, b := Items(m)[..p], Items(m)[p..];
    assert Items(m) == a + b;
    assert Items(m[..p] + [e] + m[p..]) == a + [e.val.items] + b;
  }

  /** Overwriting the rows in key order permutes the key cells. */
  lemma RefreshOk(d: Def, g: Grouped)
    requires GroupedOk(d, g)
    ensures GroupedOk(d, Refresh(g)) && Refresh(g).rows == RowsOf(g.m)
    ensures multiset(KeyParts(Refresh(g).rows, |d.cols|)) == multiset(KeyParts(g.rows, |d.cols|))
  {
    assert Refresh(g).rows == RowsOf(g.m);
    forall p | 0 <= p < |g.m|
      ensures GroupedRow(d, RowsOf(g.m)[p]) && RowsOf(g.m)[p][..|d.cols|] == g.m[p].val.items
    {
      GroupedEntry(d, g.m, p);
    }
    assert KeyParts(RowsOf(g.m), |d.cols|) == Items(g.m);
  }

  function Column(rows: seq<Row>, c: nat): seq<Data>
    requires forall x :: 0 <= x < |rows| ==> c < |rows[x]|
  {
    seq(|rows|, x requires 0 <= x < |rows| => rows[x][c])
  }

  lemma NoRows(b: seq<Row>)
    ensures b == [] <==> multiset(b) == multiset{}
  {
    assert b != [] ==> b[0] in multiset(b);
  }

  /** The last row of `a` taken out of its permutation `b`. */
  lemma TakeOut(a: seq<Row>, b: seq<Row>) returns (i: nat)
    requires a != [] && multiset(a) == multiset(b)
    ensures i < |b| && b[i] == a[|a|-1]
    ensures multiset(a[..|a|-1]) == multiset(b[..i] + b[i+1..])
  {
    var row := a[|a|-1];
    assert row in multiset(b);
    i :| 0 <= i < |b| && b[i] == row;
    TakenOut(a, |a| - 1);
    TakenOut(b, i);
    assert a[..|a|-1] + a[|a|..] == a[..|a|-1];
  }

  lemma TakenOut<T>(s: seq<T>, i: nat)
    requires i < |s|
    ensures multiset(s[..i] + s[i+1..]) == multiset(s) - multiset{s[i]}
  {
    assert s == s[..i] + ([s[i]] + s[i+1..]);
  }

  /** Rows that are a permutation of each other have the same cells. */
  lemma {:induction false} CellsPermute(a: seq<Row>, b: seq<Row>)
    requires multiset(a) == multiset(b)
    ensures Cells(a) == Cells(b)
    decreases |a|
  {
    NoRows(a);
    NoRows(b);
    if a != [] {
      var i := TakeOut(a, b);
      CellsPermute(a[..|a|-1], b[..i] + b[i+1..]);
      CellsDelete(b, i);
    }
  }

  predicate Wide(rows: seq<Row>, c: nat) {
    forall x :: 0 <= x < |rows| ==> c < |rows[x]|
  }

  /** Rows that are a permutation of each other have the same cells in every column. */
  lemma {:induction false} ColumnPermute(a: seq<Row>, b: seq<Row>, c: nat)
    requires multiset(a) == multiset(b) && Wide(a, c) && Wide(b, c)
    ensures multiset(Column(a, c)) == multiset(Column(b, c))
    decreases |a|
  {
    NoRows(a);
    NoRows(b);
    if a != [] {
      var i := TakeOut(a, b);
      var a0, x, b1, b2 := a[..|a|-1], a[|a|-1], b[..i], b[i+1..];
      ColumnPermute(a0, b1 + b2, c);
      assert Column(a, c) == Column(a0, c) + [x[c]];
      assert Column(b, c) == Column(b1, c) + [x[c]] + Column(b2, c);
      assert Column(b1 + b2, c) == Column(b1, c) + Column(b2, c);
    }
  }

  /** Only key cells hold strings. */
  lemma KeyCellsOnly(row: Row, n: nat, d: Data)
    requires n <= |row| && forall c :: n <= c < |row| ==> row[c] != d
    ensures multiset(row)[d] == multiset(row[..n])[d]
  {
    assert row == row[..n] + row[n..];
    assert d !in row[n..];
  }

  lemma {:induction false} KeyCellsHold(d: Def, rows: seq<Row>, r: StringRef)
    requires forall x :: 0 <= x < |rows| ==> |d.cols| <= |rows[x]| && GroupedRow(d, rows[x])
    ensures HeldBy(rows, r) == HeldBy(KeyParts(rows, |d.cols|), r)
  {
    if rows != [] {
      var n, last := |d.cols|, |rows| - 1;
      KeyCellsHold(d, rows[..last], r);
      assert KeyParts(rows, n)[..last] == KeyParts(rows[..last], n);
      KeyCellsOnly(rows[last], n, Str(r));
    }
  }

  /**
   * `Build()` in place is a permutation: every key column keeps its multiset of cells, so the string counts stay exact
   * although none is incremented or decremented.
   */
  lemma RefreshPermutes(d: Def, g: Grouped)
    requires GroupedOk(d, g)
    ensures |Refresh(g).rows| == |g.m|
    ensures forall c :: 0 <= c < |d.cols| ==>
              (forall x :: 0 <= x < |g.rows| ==> c < |g.rows[x]| && c < |Refresh(g).rows[x]|)
              && multiset(Column(Refresh(g).rows, c)) == multiset(Column(g.rows, c))
    ensures forall r :: HeldBy(Refresh(g).rows, r) == HeldBy(g.rows, r)
    ensures Refresh(g).counts == g.counts
  {
    var n, g' := |d.cols|, Refresh(g);
    RefreshOk(d, g);
    assert GroupedRows(d, g.rows) && GroupedRows(d, g'.rows);
    hide Refresh, Items, RowsOf, GroupsOk, GroupedRows, GroupedOk, KeyParts, Column;
    forall c | 0 <= c < n
      ensures multiset(Column(g'.rows, c)) == multiset(Column(g.rows, c))
    {
      SameColumn(d, g'.rows, g.rows, c);
    }
    forall r
      ensures HeldBy(g'.rows, r) == HeldBy(g.rows, r)
    {
      SameHeld(d, g'.rows, g.rows, r);
    }
  }

  predicate GroupedRows(d: Def, rows: seq<Row>) {
    forall x :: 0 <= x < |rows| ==> |d.cols| <= |rows[x]| && GroupedRow(d, rows[x])
  }

  lemma SameColumn(d: Def, rows1: seq<Row>, rows2: seq<Row>, c: nat)
    requires GroupedRows(d, rows1) && GroupedRows(d, rows2) && c < |d.cols|
    requires multiset(KeyParts(rows1, |d.cols|)) == multiset(KeyParts(rows2, |d.cols|))
    ensures multiset(Column(rows1, c)) == multiset(Column(rows2, c))
  {
    var a, b := KeyParts(rows1, |d.cols|), KeyParts(rows2, |d.cols|);
    ColumnPermute(a, b, c);
    assert Column(rows1, c) == Column(a, c) && Column(rows2, c) == Column(b, c);
  }

  lemma SameHeld(d: Def, rows1: seq<Row>, rows2: seq<Row>, r: StringRef)
    requires GroupedRows(d, rows1) && GroupedRows(d, rows2)
    requires multiset(KeyParts(rows1, |d.cols|)) == multiset(KeyParts(rows2, |d.cols|))
    ensures HeldBy(rows1, r) == HeldBy(rows2, r)
  {
    hide KeyParts, Cells;
    CellsPermute(KeyParts(rows1, |d.cols|), KeyParts(rows2, |d.cols|));
    KeyCellsHold(d, rows1, r);
    KeyCellsHold(d, rows2, r);
  }

  /** Every string that the map points to is held by a cell of the grouped table. */
  lemma MapStringsHeld(d: Def, g: Grouped, p: nat, i: nat)
    requires GroupedOk(d, g) && p < |g.m| && i < |d.cols|
    ensures g.m[p].val.items[i].Str? ==> HeldBy(g.rows, g.m[p].val.items[i].ref) > 0
  {
    var n := |d.cols|;
    if g.m[p].val.items[i].Str? {
      var r := g.m[p].val.items[i].ref;
      assert Items(g.m)[p] in multiset(KeyParts(g.rows, n));
      var x :| 0 <= x < |g.rows| && KeyParts(g.rows, n)[x] == g.m[p].val.items;
      CellsAt(g.rows, x);
      assert g.rows[x][i] == KeyParts(g.rows, n)[x][i] == Str(r);
      assert g.rows[x][i] in multiset(g.rows[x]);
    }
  }

  /** One call of the builder's users. */
  datatype Event = Feeds(row: Row) | GetResult

  predicate EventsOk(d: Def, events: seq<Event>) {
    forall i :: 0 <= i < |events| && events[i].Feeds? ==> RowTyped(events[i].row, d.columns)
  }

  function RunEvents(d: Def, g: Grouped, events: seq<Event>): (g': Grouped)
    requires GroupedOk(d, g) && EventsOk(d, events)
    ensures GroupedOk(d, g')
  {
    if events == [] then g
    else
      var g0 := RunEvents(d, g, events[..|events|-1]);
      match events[|events|-1]
      case Feeds(row) => FeedRowOk(d, g0, row); FeedRow(d, g0, row)
      case GetResult => RefreshOk(d, g0); Refresh(g0)
  }

  function Fed(events: seq<Event>): seq<Row> {
    if events == [] then []
    else Fed(events[..|events|-1]) + if events[|events|-1].Feeds? then [events[|events|-1].row] else []
  }

  lemma FedTyped(d: Def, events: seq<Event>)
    requires EventsOk(d, events)
    ensures RowsTyped(Fed(events), d.columns)
  {
    if events != [] {
      FedTyped(d, events[..|events|-1]);
    }
  }

  /** The map depends on the rows fed so far only. */
  lemma {:induction false} RunMap(d: Def, g: Grouped, events: seq<Event>)
    requires GroupedOk(d, g) && g.m == [] && EventsOk(d, events)
    ensures RowsTyped(Fed(events), d.columns)
    ensures RunEvents(d, g, events).m == FeedAll(d, Fed(events))
    decreases |events|
  {
    hide Feed, GroupedOk, RowTyped, NewKey, GroupsOk;
    FedTyped(d, events);
    if events != [] {
      var n := |events| - 1;
      RunMap(d, g, events[..n]);
      if events[n].Feeds? {
        assert Fed(events)[..|Fed(events)|-1] == Fed(events[..n]);
      } else {
        assert Fed(events) == Fed(events[..n]);
      }
    }
  }

  /**
   * The incremental builder refines batch grouping: whatever results were taken in between, the result equals the
   * table that `Group` makes from the same rows.
   */
  lemma BuilderRefinesBatch(d: Def, g: Grouped, events: seq<Event>)
    requires GroupedOk(d, g) && g.m == [] && EventsOk(d, events)
    ensures RowsTyped(Fed(events), d.columns)
    ensures RunEvents(d, g, events + [GetResult]).rows == RowsOf(FeedAll(d, Fed(events)))
  {
    hide RunEvents, FeedAll, Fed, GroupedOk, RowTyped, Refresh, GroupsOk;
    RunMap(d, g, events);
    RunResult(d, g, events);
    RefreshOk(d, RunEvents(d, g, events));
  }

  lemma RunResult(d: Def, g: Grouped, events: seq<Event>)
    requires GroupedOk(d, g) && EventsOk(d, events)
    ensures var g0 := RunEvents(d, g, events);
            |g0.m| <= |g0.rows| && RunEvents(d, g, events + [GetResult]) == Refresh(g0)
  {
    hide Feed, RowTyped, GroupsOk, Refresh;
    assert (events + [GetResult])[..|events|] == events;
  }

  /** The handles on a string outside the grouped table. */
  function OutsideGrouped(g: Grouped, r: StringRef): int {
    TableSpec.Count(g.counts, r) - HeldBy(g.rows, r)
  }

  /** Over any run of the builder every string's count stays its outside handles plus the cells holding it. */
  lemma {:induction false} BuilderConserves(d: Def, g: Grouped, events: seq<Event>, r: StringRef)
    requires GroupedOk(d, g) && EventsOk(d, events)
    ensures OutsideGrouped(RunEvents(d, g, events), r) == OutsideGrouped(g, r)
    decreases |events|
  {
    hide FeedRow, Refresh, GroupedOk, RowTyped, OutsideGrouped, GroupsOk;
    if events != [] {
      var n := |events| - 1;
      BuilderConserves(d, g, events[..n], r);
      var g0 := RunEvents(d, g, events[..n]);
      if events[n].Feeds? {
        FeedConserves(d, g0, events[n].row, r);
      } else {
        RefreshConserves(d, g0, r);
      }
    }
  }

  lemma FeedConserves(d: Def, g: Grouped, row: Row, r: StringRef)
    requires GroupedOk(d, g) && RowTyped(row, d.columns)
    ensures OutsideGrouped(FeedRow(d, g, row), r) == OutsideGrouped(g, r)
  {
    hide Feed, NewKey, Cells, Acquire, RowOf;
    var g' := FeedRow(d, g, row);
    if |g'.rows| > |g.rows| {
      var last := g'.rows[|g.rows|];
      CellsConcat(g.rows, [last]);
      CellsOne(last);
      AcquireCount(g.counts, last, r);
    }
  }

  lemma RefreshConserves(d: Def, g: Grouped, r: StringRef)
    requires GroupedOk(d, g)
    ensures OutsideGrouped(Refresh(g), r) == OutsideGrouped(g, r)
  {
    hide Refresh;
    RefreshOk(d, g);
    RefreshPermutes(d, g);
  }
}
