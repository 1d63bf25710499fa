/** Cell data, key items and the type codes of the table. */
module Types {
  type byte = b: int | 0 <= b < 0x100

  /** A C string: the bytes before the terminating zero. */
  predicate CString(z: seq<byte>) {
    0 !in z
  }

  lemma Joined<T>(a: seq<T>, b: seq<T>, c: seq<T>)
    ensures (a + b) + c == a + (b + c)
  {
  }


  // The codes of `enum DynamicType` that a table column can have.
  const UNDEF := 0
  const INTEGER := 1
  const UNSIGNED_INTEGER := 2
  const FLOAT := 3
  const BOOL := 4
  const DATE_TIME := 5
  const STRING := 7

  const PART_SIZE := 3                     // NKIT_TABLE_INDEX_PART_SIZE
  const MAX_KEY_SIZE := PART_SIZE * 21     // IndexKey::MAX_SIZE
  const MAX_PARTS := MAX_KEY_SIZE / PART_SIZE + 1  // IndexCompare::MAX_SIZE

  const SIZE_T_COUNT: nat := 0x1_0000_0000_0000_0000

  /** A pointer to a reference-counted string object, together with its (immutable) text. */
  datatype StringRef = StringRef(addr: nat, text: string)

  /** The `Data` union, tagged with the member that the column type selects. */
  datatype Data = I64(i: int) | U64(u: nat) | F64(f: real) | Str(ref: StringRef)

  type Row = seq<Data>

  /** The `KeyItem` union; a string item stands for the text it is compared by. */
  datatype KeyItem = KI(i: int) | KU(u: nat) | KF(f: real) | KS(s: string)

  type Key = seq<KeyItem>

  datatype Option<+T> = None | Some(value: T)

  predicate ColumnType(t: int) {
    t in {INTEGER, UNSIGNED_INTEGER, FLOAT, BOOL, DATE_TIME, STRING}
  }

  predicate HasType(d: Data, t: int) {
    match d
    case I64(_) => t == INTEGER
    case U64(_) => t == UNSIGNED_INTEGER || t == BOOL || t == DATE_TIME
    case F64(_) => t == FLOAT
    case Str(_) => t == STRING
  }

  /** `make_key_item`: the switch on the type picks the union member that `Data` is tagged with. */
  function MakeKeyItem(d: Data): KeyItem {
    match d
    case I64(i) => KI(i)
    case U64(u) => KU(u)
    case F64(f) => KF(f)
    case Str(r) => KS(r.text)
  }

  /** `get_dynamic_type_affinity`; `Option.None` is the DYNAMIC_TYPES_COUNT answer. */
  function Affinity(t: int): Option<int> {
    if t == DATE_TIME || t == BOOL then Some(UNSIGNED_INTEGER)
    else if t in {STRING, UNSIGNED_INTEGER, INTEGER, FLOAT} then Some(t)
    else None
  }

  predicate RowTyped(row: Row, columns: seq<int>) {
    |row| == |columns| && forall c :: 0 <= c < |row| ==> HasType(row[c], columns[c])
  }
}
