/** CSV as the shell prints it and as its `.import` command turns it back. */
module Csv {
  import opened Types

  const EOF := -1
  const LF: byte := 10
  const CR: byte := 13
  const QUOTE: byte := 34

  /** The table `needCsvQuote`. */
  predicate NeedCsvQuote(c: byte) {
    c <= 32 || c == QUOTE || c == 39 || c >= 127
  }

  /** What a C function sees of a buffer: the bytes before its first zero. */
  function BeforeZero(z: seq<byte>): (s: seq<byte>)
    ensures CString(s) && s <= z
    ensures CString(z) ==> s == z
  {
    if z == [] || z[0] == 0 then [] else [z[0]] + BeforeZero(z[1..])
  }

  /** The value that a `char` holds for a byte, on a platform whose `char` is signed. */
  function Signed(b: byte): int {
    if b < 128 then b else b - 256
  }

  // ---- The printer.

  /** Whether the byte at `i` forces quotes; a longer separator is compared with the start of the string. */
  predicate Forces(z: seq<byte>, sep: seq<byte>, i: nat)
    requires i < |z|
  {
    NeedCsvQuote(z[i]) || (sep != [] && z[i] == sep[0] && (|sep| == 1 || sep <= z))
  }

  predicate NeedsQuotes(z: seq<byte>, sep: seq<byte>) {
    z == [] || exists i :: 0 <= i < |z| && Forces(z, sep, i)
  }

  function Doubled(z: seq<byte>): seq<byte> {
    if z == [] then []
    else (if z[0] == QUOTE then [QUOTE, QUOTE] else [z[0]]) + Doubled(z[1..])
  }

  function CsvText(z: seq<byte>, sep: seq<byte>): seq<byte> {
    if NeedsQuotes(z, sep) then [QUOTE] + Doubled(z) + [QUOTE] else z
  }

  function FieldText(z: Option<seq<byte>>, sep: seq<byte>, nullvalue: seq<byte>): seq<byte> {
    match z
    case None => nullvalue
    case Some(s) => CsvText(s, sep)
  }

  /** A printed row; the printer ends it with a line feed, files written elsewhere with CR LF. */
  function RowText(row: seq<Option<seq<byte>>>, sep: seq<byte>, nullvalue: seq<byte>, eol: seq<byte>): seq<byte> {
    if row == [] then eol
    else FieldText(row[0], sep, nullvalue) + (if |row| > 1 then sep else []) + RowText(row[1..], sep, nullvalue, eol)
  }

  function RowsText(rows: seq<seq<Option<seq<byte>>>>, sep: seq<byte>, nullvalue: seq<byte>, eol: seq<byte>)
    : seq<byte>
  {
    if rows == [] then [] else RowText(rows[0], sep, nullvalue, eol) + RowsText(rows[1..], sep, nullvalue, eol)
  }

  /** A field is printed as it is if and only if it has visible ASCII characters other than quotes and the separator. */
  lemma PrintedPlain(z: seq<byte>, sep: byte)
    ensures CsvText(z, [sep]) == z
            <==> z != [] && forall i :: 0 <= i < |z| ==> 33 <= z[i] <= 126 && z[i] != 34 && z[i] != 39 && z[i] != sep
  {
    assert forall i :: 0 <= i < |z| ==>
      (Forces(z, [sep], i) <==> !(33 <= z[i] <= 126 && z[i] != 34 && z[i] != 39 && z[i] != sep));
    if NeedsQuotes(z, [sep]) {
      DoubledLonger(z);
    }
  }

  lemma {:induction false} DoubledLonger(z: seq<byte>)
    ensures |Doubled(z)| >= |z|
  {
    if z != [] {
      DoubledLonger(z[1..]);
    }
  }

  lemma DoubledSnoc(z: seq<byte>, i: nat)
    requires i < |z|
    ensures Doubled(z[..i+1]) == Doubled(z[..i]) + (if z[i] == QUOTE then [QUOTE, QUOTE] else [z[i]])
  {
    if i > 0 {
      DoubledSnoc(z[1..], i - 1);
      assert z[..i+1][1..] == z[1..][..i] && z[..i][1..] == z[1..][..i-1];
    }
  }

  lemma DoubledNone()
    ensures Doubled([]) == []
  {
  }

  lemma RowTextFirst(row: seq<Option<seq<byte>>>, sep: seq<byte>, nullvalue: seq<byte>)
    requires row != []
    ensures RowText(row, sep, nullvalue, [LF])
            == FieldText(row[0], sep, nullvalue) + (if |row| > 1 then sep else [])
               + RowText(row[1..], sep, nullvalue, [LF])
  {
  }

  lemma RowTextNone(sep: seq<byte>, nullvalue: seq<byte>)
    ensures RowText([], sep, nullvalue, [LF]) == [LF]
  {
  }

  class CsvPrinter {
    const separator: seq<byte>
    const nullvalue: seq<byte>
    var out: seq<byte>

    constructor (separator: seq<byte>, nullvalue: seq<byte>)
      ensures out == [] && this.separator == separator && this.nullvalue == nullvalue
    {
      this.separator, this.nullvalue, out := separator, nullvalue, [];
    }

    method OutputCsv(z: Option<seq<byte>>, bSep: bool)
      modifies this
      ensures out == old(out) + FieldText(z, separator, nullvalue) + if bSep then separator else []
    {
      if z.None? {
        out := out + nullvalue;
      } else {
        var s := z.value;
        var i := 0;
        while i < |s|
          invariant 0 <= i <= |s|
          invariant forall k :: 0 <= k < i ==> !Forces(s, separator, k)
        {
          if Forces(s, separator, i) {
            i := 0;
            break;
          }
          i := i + 1;
        }
        if i == 0 {
          OutputQuoted(s);
        } else {
          out := out + s;
        }
      }
      if bSep {
        out := out + separator;
      }
    }

    /** The loop that doubles quotes, between its two quotes. */
    method OutputQuoted(s: seq<byte>)
      modifies this
      ensures out == old(out) + ([QUOTE] + Doubled(s) + [QUOTE])
    {
      hide Doubled;
      ghost var start := out;
      out := out + [QUOTE];
      DoubledNone();
      var i := 0;
      while i < |s|
        invariant 0 <= i <= |s|
        invariant out == start + [QUOTE] + Doubled(s[..i])
      {
        DoubledSnoc(s, i);
        Joined(start + [QUOTE], Doubled(s[..i]), if s[i] == QUOTE then [QUOTE, QUOTE] else [s[i]]);
        if s[i] == QUOTE {
          out := out + [QUOTE];
        }
        out := out + [s[i]];
        i := i + 1;
      }
      assert s[..i] == s;
      out := out + [QUOTE];
    }

    method OutputRow(row: seq<Option<seq<byte>>>)
      modifies this
      ensures out == old(out) + RowText(row, separator, nullvalue, [LF])
    {
      hide FieldText, RowText;
      RowTextNone(separator, nullvalue);
      var i := 0;
      while i < |row|
        invariant 0 <= i <= |row|
        invariant out + RowText(row[i..], separator, nullvalue, [LF])
                  == old(out) + RowText(row, separator, nullvalue, [LF])
      {
        ghost var before := out;
        ghost var rest := RowText(row[i+1..], separator, nullvalue, [LF]);
        RowTextFirst(row[i..], separator, nullvalue);
        assert row[i..][1..] == row[i+1..];
        OutputCsv(row[i], i < |row| - 1);
        Joined(before, FieldText(row[i], separator, nullvalue) + (if i < |row| - 1 then separator else []), rest);
        assert out == before + (FieldText(row[i], separator, nullvalue) + if i < |row| - 1 then separator else []);
        i := i + 1;
      }
      out := out + [LF];
    }
  }

  // ---- The reader of one field.

  /** A field read: its bytes, the character that ended it, the unread input and the number of error messages. */
  datatype Field = Field(text: seq<byte>, term: int, rest: seq<byte>, reports: nat)

  function Peek(rest: seq<byte>): int {
    if rest == [] then EOF else rest[0]
  }

  function Tail(rest: seq<byte>): seq<byte> {
    if rest == [] then [] else rest[1..]
  }

  /** What the two previous characters say about the buffer. */
  predicate Pending(z: seq<byte>, pc: int, ppc: int) {
    && (pc == QUOTE ==> z != [] && z[|z|-1] == QUOTE)
    && (pc == CR && ppc == QUOTE ==> |z| > 1 && z[|z|-2] == QUOTE)
  }

  predicate Closes(c: int, pc: int, ppc: int, sep: int) {
    || (c == sep && pc == QUOTE)
    || (c == LF && pc == QUOTE)
    || (c == LF && pc == CR && ppc == QUOTE)
    || (c == EOF && pc == QUOTE)
  }

  /** The buffer before its last quote. */
  function BeforeQuote(z: seq<byte>): seq<byte>
    requires QUOTE in z
  {
    if z[|z|-1] == QUOTE then z[..|z|-1] else BeforeQuote(z[..|z|-1])
  }

  function ReadQuoted(rest: seq<byte>, z: seq<byte>, pc: int, ppc: int, sep: int, reports: nat): (f: Field)
    requires Pending(z, pc, ppc)
    ensures |f.rest| <= |rest|
    decreases |rest|
  {
    var c := Peek(rest);
    if c == QUOTE && pc == QUOTE then ReadQuoted(rest[1..], z, 0, ppc, sep, reports)
    else if Closes(c, pc, ppc, sep) then Field(BeforeQuote(z), c, Tail(rest), reports)
    else
      var n := if pc == QUOTE && c != CR then reports + 1 else reports;
      if c == EOF then Field(z, EOF, [], n + 1)
      else ReadQuoted(rest[1..], z + [rest[0]], c, pc, sep, n)
  }

  function DropCR(z: seq<byte>): seq<byte> {
    if |z| > 1 && z[|z|-1] == CR then z[..|z|-1] else z
  }

  function ReadPlain(rest: seq<byte>, z: seq<byte>, sep: int): (f: Field)
    ensures |f.rest| <= |rest|
    ensures rest != [] && z == [] ==> |f.rest| < |rest|
    decreases |rest|
  {
    var c := Peek(rest);
    if c == EOF || c == sep || c == LF then Field(if c == LF then DropCR(z) else z, c, Tail(rest), 0)
    else ReadPlain(rest[1..], z + [rest[0]], sep)
  }

  function ReadField(rest: seq<byte>, sep: int): (f: Option<Field>)
    ensures f.None? <==> rest == []
    ensures f.Some? ==> |f.value.rest| < |rest|
  {
    if rest == [] then None
    else if rest[0] == QUOTE then Some(ReadQuoted(rest[1..], [], 0, 0, sep, 0))
    else Some(ReadPlain(rest, [], sep))
  }

  /** Whether reading the field stores any byte in the buffer. */
  predicate Stores(rest: seq<byte>, sep: int) {
    rest != [] && if rest[0] == QUOTE then |rest| > 1 else rest[0] != sep && rest[0] != LF
  }

  function Lines(s: seq<byte>): nat {
    if s == [] then 0 else (if s[0] == LF then 1 else 0) + Lines(s[1..])
  }

  // ---- Reading back what was printed.

  /** The input begins with a CR LF that no separator takes apart. */
  predicate CrLf(tail: seq<byte>, sep: int) {
    sep != CR && |tail| > 1 && tail[0] == CR && tail[1] == LF
  }

  /** The terminator before which a field stands, and the input after it. */
  function EndOf(tail: seq<byte>, sep: int): (int, seq<byte>) {
    if CrLf(tail, sep) then (LF as int, tail[2..]) else (Peek(tail), Tail(tail))
  }

  lemma ClosedByCrLf(tail: seq<byte>, z: seq<byte>, ppc: int, sep: int)
    requires CrLf(tail, sep)
    ensures ReadQuoted(tail, z + [QUOTE], QUOTE as int, ppc, sep, 0) == Field(z, LF, tail[2..], 0)
  {
    var closed := z + [QUOTE] + [CR];
    assert tail[1..][1..] == tail[2..];
    assert closed[..|closed|-1] == z + [QUOTE] && BeforeQuote(z + [QUOTE]) == z;
    assert ReadQuoted(tail[1..], closed, CR as int, QUOTE as int, sep, 0) == Field(z, LF, tail[2..], 0);
  }

  /** Quoted content and its closing quote, read up to the terminator. */
  lemma {:induction false} QuotedBack(w: seq<byte>, tail: seq<byte>, z: seq<byte>, pc: int, ppc: int, sep: int)
    requires Pending(z, pc, ppc) && pc != QUOTE && ppc != QUOTE
    requires Peek(tail) == EOF || Peek(tail) == LF || (Peek(tail) == sep && sep != QUOTE) || CrLf(tail, sep)
    ensures ReadQuoted(Doubled(w) + [QUOTE] + tail, z, pc, ppc, sep, 0)
            == Field(z + w, EndOf(tail, sep).0, EndOf(tail, sep).1, 0)
    decreases |w|
  {
    var rest := Doubled(w) + [QUOTE] + tail;
    if w == [] {
      assert rest == [QUOTE] + tail && rest[1..] == tail;
      assert BeforeQuote(z + [QUOTE]) == z;
      if CrLf(tail, sep) {
        ClosedByCrLf(tail, z, pc, sep);
        assert z + w == z;
      }
    } else if w[0] == QUOTE {
      assert rest[1..] == [QUOTE] + (Doubled(w[1..]) + [QUOTE] + tail);
      assert rest[1..][1..] == Doubled(w[1..]) + [QUOTE] + tail;
      QuotedBack(w[1..], tail, z + [QUOTE], 0, pc, sep);
      assert z + [QUOTE] + w[1..] == z + w;
    } else {
      assert rest[1..] == Doubled(w[1..]) + [QUOTE] + tail;
      QuotedBack(w[1..], tail, z + [w[0]], w[0], pc, sep);
      assert z + [w[0]] + w[1..] == z + w;
    }
  }

  lemma PlainCrLf(tail: seq<byte>, z: seq<byte>, sep: int)
    requires CrLf(tail, sep) && z != []
    ensures ReadPlain(tail, z, sep) == Field(z, LF, tail[2..], 0)
  {
    assert tail[1..][1..] == tail[2..] && (z + [CR])[..|z|] == z;
    assert ReadPlain(tail[1..], z + [CR], sep) == Field(z, LF, tail[2..], 0);
  }

  lemma {:induction false} PlainBack(w: seq<byte>, tail: seq<byte>, z: seq<byte>, sep: int)
    requires forall i :: 0 <= i < |w| ==> w[i] != sep && w[i] != LF && w[i] != CR
    requires Peek(tail) == EOF || Peek(tail) == LF || Peek(tail) == sep || (CrLf(tail, sep) && z + w != [])
    requires z == [] || z[|z|-1] != CR
    ensures ReadPlain(w + tail, z, sep) == Field(z + w, EndOf(tail, sep).0, EndOf(tail, sep).1, 0)
    decreases |w|
  {
    if w == [] {
      assert w + tail == tail && z + w == z;
      if CrLf(tail, sep) {
        PlainCrLf(tail, z, sep);
      }
    } else {
      assert (w + tail)[1..] == w[1..] + tail;
      PlainBack(w[1..], tail, z + [w[0]], sep);
      assert z + [w[0]] + w[1..] == z + w;
    }
  }

  /** A quoted field never ends at a quote, and no field ends at a separator that no byte equals. */
  lemma {:induction false} QuotedTerm(rest: seq<byte>, z: seq<byte>, pc: int, ppc: int, sep: int, reports: nat)
    requires Pending(z, pc, ppc)
    ensures
      var t := ReadQuoted(rest, z, pc, ppc, sep, reports).term;
      t != QUOTE && (t == EOF || t == LF || (t == sep && sep >= 0))
    decreases |rest|
  {
    var c := Peek(rest);
    if c == QUOTE && pc == QUOTE {
      QuotedTerm(rest[1..], z, 0, ppc, sep, reports);
    } else if !Closes(c, pc, ppc, sep) && c != EOF {
      QuotedTerm(rest[1..], z + [rest[0]], c, pc, sep, if pc == QUOTE && c != CR then reports + 1 else reports);
    }
  }

  lemma {:induction false} PlainTerm(rest: seq<byte>, z: seq<byte>, sep: int)
    ensures var t := ReadPlain(rest, z, sep).term; t == EOF || t == LF || (t == sep && sep >= 0)
    decreases |rest|
  {
    var c := Peek(rest);
    if c != EOF && c != sep && c != LF {
      PlainTerm(rest[1..], z + [rest[0]], sep);
    }
  }

  /** A separator of 128 or more is negative as a signed `char`: no field ends at it. */
  lemma NeverSeparator(rest: seq<byte>, sep: byte)
    requires rest != [] && sep >= 128
    ensures var t := ReadField(rest, Signed(sep)).value.term; t == EOF || t == LF
  {
    if rest[0] == QUOTE {
      QuotedTerm(rest[1..], [], 0, 0, Signed(sep), 0);
    } else {
      PlainTerm(rest, [], Signed(sep));
    }
  }

  /** A printed field before a line end or the end of the input turns back, whatever the separator. */
  lemma FieldBack(z: seq<byte>, sep: byte, tail: seq<byte>)
    requires tail == [] || tail[0] == LF || CrLf(tail, Signed(sep)) || (tail[0] == sep && sep < 128 && sep != QUOTE)
             || (tail[0] == sep && sep < 128 && !NeedsQuotes(z, [sep]))
    ensures
      var (term, rest) := EndOf(tail, Signed(sep));
      ReadField(CsvText(z, [sep]) + tail, Signed(sep)) == Some(Field(z, term, rest, 0))
    ensures Stores(CsvText(z, [sep]) + tail, Signed(sep))
  {
    var text := CsvText(z, [sep]) + tail;
    if NeedsQuotes(z, [sep]) {
      QuotedBack(z, tail, [], 0, 0, Signed(sep));
      assert text[1..] == Doubled(z) + [QUOTE] + tail;
      assert [] + z == z;
    } else {
      assert !Forces(z, [sep], 0) && text[0] == z[0];
      forall i | 0 <= i < |z|
        ensures z[i] != Signed(sep) && z[i] != LF && z[i] != CR && z[i] != QUOTE
      {
        assert !Forces(z, [sep], i);
      }
      PlainBack(z, tail, [], Signed(sep));
      assert [] + z == z;
    }
  }

  /**
   * Before the separator: the field and its terminator come back if and only if the separator is below 128 and is not
   * a quote that follows a quoted field.
   */
  lemma SeparatedFieldBack(z: seq<byte>, sep: byte, rest: seq<byte>)
    requires sep != 0
    ensures ReadField(CsvText(z, [sep]) + [sep] + rest, Signed(sep)) == Some(Field(z, sep, rest, 0))
            <==> sep < 128 && !(sep == QUOTE && NeedsQuotes(z, [sep]))
  {
    var tail := [sep] + rest;
    var text := CsvText(z, [sep]) + tail;
    assert text == CsvText(z, [sep]) + [sep] + rest;
    if sep == QUOTE && NeedsQuotes(z, [sep]) {
      QuotedTerm(text[1..], [], 0, 0, sep, 0);
    } else if sep >= 128 {
      NeverSeparator(text, sep);
    } else {
      FieldBack(z, sep, tail);
    }
  }

  /** Before CR LF: the field comes back, without the CR, if and only if CR is not the separator. */
  lemma CrLfFieldBack(z: seq<byte>, sep: byte, rest: seq<byte>)
    ensures ReadField(CsvText(z, [sep]) + [CR, LF] + rest, Signed(sep)) == Some(Field(z, LF, rest, 0)) <==> sep != CR
  {
    var tail := [CR, LF] + rest;
    assert CsvText(z, [sep]) + tail == CsvText(z, [sep]) + [CR, LF] + rest;
    FieldBack(z, sep, tail);
  }

  /** A line of a CR alone is a field of that CR. */
  lemma LoneCR(sep: byte, rest: seq<byte>)
    requires sep != CR
    ensures ReadField([CR, LF] + rest, Signed(sep)) == Some(Field([CR], LF, rest, 0))
  {
    var text := [CR, LF] + rest;
    assert text[1..] == [LF] + rest && text[1..][1..] == rest;
    assert [] + [text[0]] == [CR];
    assert ReadPlain(text[1..], [CR], Signed(sep)) == Field([CR], LF, rest, 0);
  }

  /** Quoted content without its closing quote is read to the end of the input, and reported. */
  lemma {:induction false} UnterminatedFrom(w: seq<byte>, z: seq<byte>, pc: int, ppc: int, sep: int)
    requires Pending(z, pc, ppc) && pc != QUOTE && ppc != QUOTE
    ensures ReadQuoted(Doubled(w), z, pc, ppc, sep, 0) == Field(z + w, EOF, [], 1)
    decreases |w|
  {
    var rest := Doubled(w);
    if w == [] {
      assert z + w == z;
    } else if w[0] == QUOTE {
      assert rest[1..] == [QUOTE] + Doubled(w[1..]) && rest[1..][1..] == Doubled(w[1..]);
      UnterminatedFrom(w[1..], z + [QUOTE], 0, pc, sep);
      assert z + [QUOTE] + w[1..] == z + w;
    } else {
      assert rest[1..] == Doubled(w[1..]);
      UnterminatedFrom(w[1..], z + [w[0]], w[0], pc, sep);
      assert z + [w[0]] + w[1..] == z + w;
    }
  }

  lemma UnterminatedField(w: seq<byte>, sep: byte)
    ensures ReadField([QUOTE] + Doubled(w), Signed(sep)) == Some(Field(w, EOF, [], 1))
  {
    UnterminatedFrom(w, [], 0, 0, Signed(sep));
    assert [] + w == w && ([QUOTE] + Doubled(w))[1..] == Doubled(w);
  }

  // ---- The import of rows.

  /** One call of the reader: the string it returns, the terminator, the unread input and whether a buffer exists. */
  datatype Read = Read(z: Option<seq<byte>>, term: int, rest: seq<byte>, hasBuffer: bool)

  function ReadOne(rest: seq<byte>, hasBuffer: bool, sep: int): (r: Read)
    ensures |r.rest| <= |rest|
    ensures r.term != EOF ==> |r.rest| < |rest|
  {
    match ReadField(rest, sep)
    case None => Read(None, EOF, [], hasBuffer)
    case Some(f) =>
      var a := hasBuffer || Stores(rest, sep);
      Read(if a then Some(BeforeZero(f.text)) else None, f.term, f.rest, a)
  }

  type Bindings = seq<Option<seq<byte>>>

  datatype RowEnd = RowEnd(i: nat, term: int, rest: seq<byte>, hasBuffer: bool, bound: Bindings)

  /** The `sqlite3_bind_null` loop, entered with the column just bound: its indexes are one too small. */
  function BindNulls(bound: Bindings, i: nat): (b: Bindings)
    requires i < |bound|
    ensures |b| == |bound|
    ensures forall k :: 0 <= k < |bound| ==> b[k] == if i <= k < |bound| - 1 then None else bound[k]
    decreases |bound| - i
  {
    if i + 1 < |bound| then BindNulls(bound[i := None], i + 1) else bound
  }

  /** The columns of a row from column `i` on. */
  function ReadRow(rest: seq<byte>, hasBuffer: bool, bound: Bindings, i: nat, term: int, sep: int): (e: RowEnd)
    requires i <= |bound|
    ensures |e.bound| == |bound| && |e.rest| <= |rest|
    ensures i < |bound| && e.term != EOF ==> |e.rest| < |rest|
    decreases |bound| - i
  {
    if i == |bound| then RowEnd(i, term, rest, hasBuffer, bound)
    else
      var r := ReadOne(rest, hasBuffer, sep);
      if r.z.None? && i == 0 then RowEnd(i, r.term, r.rest, r.hasBuffer, bound)
      else if i < |bound| - 1 && r.term != sep then
        RowEnd(|bound| + 1, r.term, r.rest, r.hasBuffer, BindNulls(bound[i := r.z], i))
      else ReadRow(r.rest, r.hasBuffer, bound[i := r.z], i + 1, r.term, sep)
  }

  /** The loop that skips the fields beyond the last column. */
  function SkipExtras(rest: seq<byte>, hasBuffer: bool, bound: Bindings, i: nat, sep: int): (e: RowEnd)
    requires sep != EOF
    ensures |e.bound| == |bound| && |e.rest| <= |rest| && e.term != sep
    ensures e.term != EOF ==> |e.rest| < |rest|
    decreases |rest|
  {
    var r := ReadOne(rest, hasBuffer, sep);
    if r.term == sep then SkipExtras(r.rest, r.hasBuffer, bound, i + 1, sep)
    else RowEnd(i + 1, r.term, r.rest, r.hasBuffer, bound)
  }

  function ImportRow(rest: seq<byte>, hasBuffer: bool, bound: Bindings, sep: int): (e: RowEnd)
    requires bound != [] && sep != EOF
    ensures |e.bound| == |bound|
    ensures e.term != EOF ==> |e.rest| < |rest|
  {
    var e := ReadRow(rest, hasBuffer, bound, 0, EOF, sep);
    if e.term == sep then SkipExtras(e.rest, e.hasBuffer, e.bound, e.i, sep) else e
  }

  /** The rows that the import inserts. */
  function ImportRows(rest: seq<byte>, hasBuffer: bool, bound: Bindings, sep: int): (rows: seq<Bindings>)
    requires bound != [] && sep != EOF
    ensures forall k :: 0 <= k < |rows| ==> |rows[k]| == |bound|
    decreases |rest|
  {
    var e := ImportRow(rest, hasBuffer, bound, sep);
    (if e.i >= |bound| then [e.bound] else [])
    + (if e.term == EOF then [] else ImportRows(e.rest, e.hasBuffer, e.bound, sep))
  }

  lemma ImportStep(rest: seq<byte>, hasBuffer: bool, bound: Bindings, sep: int)
    requires bound != [] && sep != EOF
    ensures
      var e := ImportRow(rest, hasBuffer, bound, sep);
      ImportRows(rest, hasBuffer, bound, sep)
      == (if e.i >= |bound| then [e.bound] else [])
         + if e.term == EOF then [] else ImportRows(e.rest, e.hasBuffer, e.bound, sep)
  {
  }

  predicate Printable(row: Bindings) {
    forall i :: 0 <= i < |row| ==> row[i].Some? && CString(row[i].value)
  }

  predicate RowsPrintable(rows: seq<Bindings>) {
    forall k :: 0 <= k < |rows| ==> rows[k] != [] && Printable(rows[k])
  }

  /** A separator that is recognised between fields, or rows that have none. */
  predicate Separates(sep: byte, rows: seq<Bindings>) {
    && sep != 0 && sep != QUOTE && sep != LF && sep != 255
    && (sep < 128 || forall k :: 0 <= k < |rows| ==> |rows[k]| == 1)
  }

  /** A line feed, or a CR LF that the separator does not take apart. */
  predicate LineEnd(eol: seq<byte>, sep: byte) {
    eol == [LF] || (eol == [CR, LF] && sep != CR)
  }

  function Nulls(n: nat): (b: Bindings)
    ensures |b| == n && forall k :: 0 <= k < n ==> b[k].None?
  {
    seq(n, _ => None)
  }

  /**
   * What a row of printed fields leaves bound: extra fields are dropped; of too few, the last one becomes NULL like the
   * missing ones, except that the last column keeps what was bound before.
   */
  function BoundRow(row: Bindings, bound: Bindings): (b: Bindings)
    requires row != [] && bound != []
    ensures |b| == |bound|
  {
    if |row| >= |bound| then row[..|bound|]
    else row[..|row|-1] + Nulls(|bound| - |row|) + [bound[|bound|-1]]
  }

  function BoundRows(rows: seq<Bindings>, bound: Bindings): seq<Bindings>
    requires bound != [] && forall k :: 0 <= k < |rows| ==> rows[k] != []
  {
    if rows == [] then []
    else var b := BoundRow(rows[0], bound); [b] + BoundRows(rows[1..], b)
  }

  /** What the import means to insert: the fields, without extra ones, and NULL for the missing ones. */
  function Padded(row: Bindings, n: nat): Bindings {
    if |row| >= n then row[..n] else row + Nulls(n - |row|)
  }

  function PaddedRows(rows: seq<Bindings>, n: nat): seq<Bindings> {
    seq(|rows|, k requires 0 <= k < |rows| => Padded(rows[k], n))
  }

  /** The state after the columns of a printed row have been read. */
  function RowRead(row: Bindings, eol: seq<byte>, tail: seq<byte>, sep: byte, bound: Bindings, i: nat): RowEnd
    requires i < |row| && i < |bound|
  {
    var b := bound[..i] + BoundRow(row, bound)[i..];
    if |row| > |bound| then
      RowEnd(|bound|, Signed(sep), RowText(row[|bound|..], [sep], [], eol) + tail, true, b)
    else RowEnd(if |row| < |bound| then |bound| + 1 else |bound|, LF, tail, true, b)
  }

  lemma {:induction false} FieldsBack(row: Bindings, eol: seq<byte>, tail: seq<byte>, sep: byte, hasBuffer: bool,
                                      bound: Bindings, i: nat, term: int)
    requires Printable(if |row| > |bound| then row[..|bound|] else row) && i < |row| && i < |bound|
    requires Separates(sep, [row]) && LineEnd(eol, sep)
    ensures ReadRow(RowText(row[i..], [sep], [], eol) + tail, hasBuffer, bound, i, term, Signed(sep))
            == RowRead(row, eol, tail, sep, bound, i)
    decreases |row| - i
  {
    hide CsvText, ReadField, Stores, ReadRow, RowText, CString, BoundRow, RowRead;
    assert |[row][0]| == |row|;
    var printable := if |row| > |bound| then row[..|bound|] else row;
    assert row[i] == printable[i];
    var z, text := row[i].value, RowText(row[i..], [sep], [], eol) + tail;
    var more := RowTextStep(row, i, sep, eol, tail);
    FieldBack(z, sep, more);
    ReadRowStep(text, hasBuffer, bound, i, term, Signed(sep), z);
    ReadRowEnd(ReadField(text, Signed(sep)).value, bound[i := Some(z)], Signed(sep));
    RowReadStep(row, eol, tail, sep, bound, i);
    if i < |row| - 1 && i < |bound| - 1 {
      FieldsBack(row, eol, tail, sep, true, bound[i := row[i]], i + 1, sep);
    }
  }

  lemma RowReadStep(row: Bindings, eol: seq<byte>, tail: seq<byte>, sep: byte, bound: Bindings, i: nat)
    requires i < |row| && i < |bound|
    ensures
      var r, bound' := RowRead(row, eol, tail, sep, bound, i), bound[i := row[i]];
      if i < |row| - 1 && i < |bound| - 1 then r == RowRead(row, eol, tail, sep, bound', i + 1)
      else if i < |row| - 1 then
        r == RowEnd(|bound|, Signed(sep), RowText(row[i+1..], [sep], [], eol) + tail, true, bound')
      else if i < |bound| - 1 then r == RowEnd(|bound| + 1, LF, tail, true, BindNulls(bound', i))
      else r == RowEnd(|bound|, LF, tail, true, bound')
  {
    hide RowText, BindNulls, BoundRow;
    if i < |row| - 1 && i < |bound| - 1 {
      MoreBound(row, bound, i);
    } else {
      AllBound(row, bound, i);
    }
  }

  lemma MoreBound(row: Bindings, bound: Bindings, i: nat)
    requires i < |row| - 1 && i < |bound| - 1
    ensures
      var bound' := bound[i := row[i]];
      bound'[..i+1] + BoundRow(row, bound')[i+1..] == bound[..i] + BoundRow(row, bound)[i..]
  {
    var bound' := bound[i := row[i]];
    assert BoundRow(row, bound') == BoundRow(row, bound);
    assert BoundRow(row, bound)[i] == row[i];
    var b := BoundRow(row, bound);
    hide BoundRow;
    assert bound'[..i+1] == bound[..i] + [row[i]] && b[i..] == [b[i]] + b[i+1..];
  }

  lemma AllBound(row: Bindings, bound: Bindings, i: nat)
    requires i < |row| && i < |bound| && (i == |row| - 1 || i == |bound| - 1)
    ensures bound[..i] + BoundRow(row, bound)[i..]
            == if i < |bound| - 1 then BindNulls(bound[i := row[i]], i) else bound[i := row[i]]
  {
    hide BindNulls;
  }

  /** The text of a row from column `i` on: its field, and what follows. */
  lemma RowTextStep(row: Bindings, i: nat, sep: byte, eol: seq<byte>, tail: seq<byte>) returns (more: seq<byte>)
    requires i < |row| && row[i].Some? && LineEnd(eol, sep)
    ensures RowText(row[i..], [sep], [], eol) + tail == CsvText(row[i].value, [sep]) + more
    ensures if i < |row| - 1 then
              var next := RowText(row[i+1..], [sep], [], eol) + tail;
              more == [sep] + next && EndOf(more, sep) == (sep as int, next)
            else more == eol + tail && EndOf(more, Signed(sep)) == (LF as int, tail)
  {
    hide CsvText;
    assert row[i..][1..] == row[i+1..];
    more := if i < |row| - 1 then [sep] + (RowText(row[i+1..], [sep], [], eol) + tail) else eol + tail;
  }

  /** Reading column `i`, when there is a field. */
  lemma ReadRowStep(rest: seq<byte>, hasBuffer: bool, bound: Bindings, i: nat, term: int, sep: int, z: seq<byte>)
    requires i < |bound| && rest != [] && CString(z) && Stores(rest, sep) && ReadField(rest, sep).value.text == z
    ensures
      var f, bound' := ReadField(rest, sep).value, bound[i := Some(z)];
      ReadRow(rest, hasBuffer, bound, i, term, sep)
      == if i < |bound| - 1 && f.term != sep then RowEnd(|bound| + 1, f.term, f.rest, true, BindNulls(bound', i))
         else ReadRow(f.rest, true, bound', i + 1, f.term, sep)
  {
    hide ReadField, Stores;
  }

  lemma ReadRowEnd(f: Field, bound: Bindings, sep: int)
    ensures ReadRow(f.rest, true, bound, |bound|, f.term, sep) == RowEnd(|bound|, f.term, f.rest, true, bound)
  {
  }

  /** The extra fields of a printed row, from field `j` on, are skipped. */
  lemma {:induction false} ExtrasBack(row: Bindings, j: nat, eol: seq<byte>, tail: seq<byte>, sep: byte,
                                      bound: Bindings, i: nat)
    requires Printable(row) && j < |row| && sep < 128 && Separates(sep, [row]) && LineEnd(eol, sep)
    ensures SkipExtras(RowText(row[j..], [sep], [], eol) + tail, true, bound, i, Signed(sep))
            == RowEnd(i + (|row| - j), LF, tail, true, bound)
    decreases |row| - j
  {
    hide CsvText, ReadField, Stores, RowText, CString, BeforeZero;
    var z := row[j].value;
    var more := RowTextStep(row, j, sep, eol, tail);
    FieldBack(z, sep, more);
    if j < |row| - 1 {
      ExtrasBack(row, j + 1, eol, tail, sep, bound, i + 1);
    }
  }

  /** One printed row of any positive number of fields is imported as `BoundRow` says. */
  lemma RowImported(row: Bindings, eol: seq<byte>, tail: seq<byte>, sep: byte, hasBuffer: bool, bound: Bindings)
    requires row != [] && Printable(row) && bound != [] && Separates(sep, [row]) && LineEnd(eol, sep)
    ensures
      var e := ImportRow(RowText(row, [sep], [], eol) + tail, hasBuffer, bound, Signed(sep));
      e.i >= |bound| && e == RowEnd(e.i, LF, tail, true, BoundRow(row, bound))
  {
    hide ReadRow, RowText, SkipExtras, BoundRow;
    assert row[0..] == row && |[row][0]| == |row|;
    FieldsBack(row, eol, tail, sep, hasBuffer, bound, 0, EOF);
    assert bound[..0] + BoundRow(row, bound)[0..] == BoundRow(row, bound);
    if |row| > |bound| {
      ExtrasBack(row, |bound|, eol, tail, sep, BoundRow(row, bound), |bound|);
    }
  }

  lemma EndOfRows(hasBuffer: bool, bound: Bindings, sep: int)
    requires bound != [] && sep != EOF
    ensures ImportRows([], hasBuffer, bound, sep) == []
  {
  }

  /** Importing printed rows of any widths inserts one row for each, as `BoundRow` says. */
  lemma {:induction false} RowsImported(rows: seq<Bindings>, eol: seq<byte>, sep: byte, hasBuffer: bool,
                                        bound: Bindings)
    requires bound != [] && RowsPrintable(rows) && Separates(sep, rows) && LineEnd(eol, sep)
    ensures ImportRows(RowsText(rows, [sep], [], eol), hasBuffer, bound, Signed(sep)) == BoundRows(rows, bound)
  {
    hide ImportRow, RowText, BoundRow, CString;
    if rows == [] {
      EndOfRows(hasBuffer, bound, Signed(sep));
    } else {
      assert Separates(sep, [rows[0]]);
      RowImported(rows[0], eol, RowsText(rows[1..], [sep], [], eol), sep, hasBuffer, bound);
      RowsImported(rows[1..], eol, sep, true, BoundRow(rows[0], bound));
    }
  }

  /** Importing what was printed inserts exactly the printed rows, when they are as wide as the table. */
  lemma RowsBack(rows: seq<Bindings>, eol: seq<byte>, sep: byte, hasBuffer: bool, bound: Bindings)
    requires bound != [] && RowsPrintable(rows) && Separates(sep, rows) && LineEnd(eol, sep)
    requires forall k :: 0 <= k < |rows| ==> |rows[k]| == |bound|
    ensures ImportRows(RowsText(rows, [sep], [], eol), hasBuffer, bound, Signed(sep)) == rows
  {
    hide ImportRows, RowsText, BoundRows, PaddedRows;
    RowsImported(rows, eol, sep, hasBuffer, bound);
    WideRowsPadded(rows, bound);
    FullRowsPadded(rows, |bound|);
  }

  lemma FullRowsPadded(rows: seq<Bindings>, n: nat)
    requires forall k :: 0 <= k < |rows| ==> |rows[k]| == n
    ensures PaddedRows(rows, n) == rows
  {
    forall k | 0 <= k < |rows|
      ensures Padded(rows[k], n) == rows[k]
    {
    }
  }

  lemma {:induction false} WideRowsPadded(rows: seq<Bindings>, bound: Bindings)
    requires bound != [] && forall k :: 0 <= k < |rows| ==> |rows[k]| >= |bound|
    ensures BoundRows(rows, bound) == PaddedRows(rows, |bound|)
  {
    if rows != [] {
      WideRowsPadded(rows[1..], BoundRow(rows[0], bound));
      PaddedMore(rows, |bound|);
    }
  }

  lemma PaddedMore(rows: seq<Bindings>, n: nat)
    requires rows != []
    ensures PaddedRows(rows, n) == [Padded(rows[0], n)] + PaddedRows(rows[1..], n)
  {
  }

  /** A row comes out without its extra fields and padded with NULL if and only if it has all its columns. */
  lemma BoundRowPadded(row: Bindings, bound: Bindings)
    requires row != [] && Printable(row) && bound != []
    ensures BoundRow(row, bound) == Padded(row, |bound|) <==> |row| >= |bound|
  {
    if |row| < |bound| {
      assert BoundRow(row, bound)[|row|-1] == None;
      assert Padded(row, |bound|)[|row|-1] == row[|row|-1];
    }
  }

  lemma {:induction false} BoundRowsPadded(rows: seq<Bindings>, bound: Bindings)
    requires bound != [] && RowsPrintable(rows)
    ensures BoundRows(rows, bound) == PaddedRows(rows, |bound|)
            <==> forall k :: 0 <= k < |rows| ==> |rows[k]| >= |bound|
  {
    hide BoundRow, Padded, PaddedRows, CString;
    if rows != [] {
      var b := BoundRow(rows[0], bound);
      BoundRowPadded(rows[0], bound);
      BoundRowsPadded(rows[1..], b);
      PaddedMore(rows, |bound|);
      var more, padded := BoundRows(rows[1..], b), PaddedRows(rows[1..], |bound|);
      assert ([b] + more)[1..] == more && ([Padded(rows[0], |bound|)] + padded)[1..] == padded;
      assert ([b] + more)[0] == b && ([Padded(rows[0], |bound|)] + padded)[0] == Padded(rows[0], |bound|);
    } else {
      NoRowsPadded(|bound|);
    }
  }

  lemma NoRowsPadded(n: nat)
    ensures PaddedRows([], n) == []
  {
  }

  /** Printed rows are inserted padded with NULL, and without extra fields, if and only if no field is missing. */
  lemma RaggedRowsExact(rows: seq<Bindings>, eol: seq<byte>, sep: byte, hasBuffer: bool, bound: Bindings)
    requires bound != [] && RowsPrintable(rows) && Separates(sep, rows) && LineEnd(eol, sep)
    ensures ImportRows(RowsText(rows, [sep], [], eol), hasBuffer, bound, Signed(sep)) == PaddedRows(rows, |bound|)
            <==> forall k :: 0 <= k < |rows| ==> |rows[k]| >= |bound|
  {
    hide ImportRows, RowsText, BoundRows, PaddedRows;
    RowsImported(rows, eol, sep, hasBuffer, bound);
    BoundRowsPadded(rows, bound);
  }

  const FULL: Bindings := [Some([49]), Some([50]), Some([51]), Some([52])]
  const SHORT: Bindings := [Some([53]), Some([54])]

  /** Two of four fields after a full row: the second is lost, and the fourth column keeps the previous row's value. */
  lemma ShortRowLosesField()
    ensures ImportRows(RowsText([FULL, SHORT], [44], [], [LF]), false, Nulls(4), 44)
            == [FULL, [Some([53]), None, None, Some([52])]]
  {
    hide ImportRows, RowsText, BoundRows, BoundRow;
    RowsImported([FULL, SHORT], [LF], 44, false, Nulls(4));
    TwoBound(FULL, SHORT, Nulls(4));
    ShortBound();
  }

  lemma ShortBound()
    ensures BoundRow(FULL, Nulls(4)) == FULL
    ensures BoundRow(SHORT, FULL) == [Some([53]), None, None, Some([52])]
  {
  }

  lemma TwoBound(row: Bindings, next: Bindings, bound: Bindings)
    requires row != [] && next != [] && bound != []
    ensures BoundRows([row, next], bound) == [BoundRow(row, bound), BoundRow(next, BoundRow(row, bound))]
  {
    hide BoundRow;
    var b := BoundRow(row, bound);
    assert [row, next][1..] == [next] && [next][1..] == [];
    assert BoundRows([next], b) == [BoundRow(next, b)] + BoundRows([], BoundRow(next, b));
  }

  /** With a separator of 128 or more, every imported row of several columns has NULL in its first column. */
  lemma {:induction false} ImportLosesFirst(rest: seq<byte>, hasBuffer: bool, bound: Bindings, sep: byte)
    requires |bound| > 1 && 128 <= sep < 255
    ensures forall k :: 0 <= k < |ImportRows(rest, hasBuffer, bound, Signed(sep))| ==>
      ImportRows(rest, hasBuffer, bound, Signed(sep))[k][0] == None
    decreases |rest|
  {
    if rest != [] {
      NeverSeparator(rest, sep);
    }
    var e := ImportRow(rest, hasBuffer, bound, Signed(sep));
    if e.term != EOF {
      ImportLosesFirst(e.rest, e.hasBuffer, e.bound, sep);
    }
  }

  /** Between CR and LF, a separator CR only begins an extra field. */
  lemma CrSeparatedRow(row: Bindings, tail: seq<byte>, hasBuffer: bool, bound: Bindings)
    requires row != [] && Printable(row) && |row| == |bound|
    ensures ImportRow(RowText(row, [CR], [], [CR, LF]) + tail, hasBuffer, bound, CR as int)
            == RowEnd(|bound| + 1, LF, tail, true, row)
  {
    hide ReadRow, RowText, SkipExtras, Printable;
    CrSeparatedFields(row, tail, hasBuffer, bound);
    EmptyExtra(tail, row, |bound|);
  }

  lemma CrSeparatedFields(row: Bindings, tail: seq<byte>, hasBuffer: bool, bound: Bindings)
    requires row != [] && Printable(row) && |row| == |bound|
    ensures ReadRow(RowText(row, [CR], [], [CR, LF]) + tail, hasBuffer, bound, 0, EOF, CR as int)
            == RowEnd(|bound|, CR, [LF] + tail, true, row)
  {
    hide ReadRow, RowText, CString, BoundRow, Printable;
    var longer := row + [None];
    RowTextExtra(row);
    assert longer[..|bound|] == row && longer[0..] == longer && longer[|bound|..] == [None];
    FieldsBack(longer, [LF], tail, CR, hasBuffer, bound, 0, EOF);
    BoundAsRead(longer, bound);
    LastText();
  }

  lemma LastText()
    ensures RowText([None], [CR], [], [LF]) == [LF]
  {
    var row: Bindings := [None];
    assert row[1..] == [];
    assert FieldText(None, [CR], []) == [];
  }

  lemma EmptyExtra(tail: seq<byte>, bound: Bindings, i: nat)
    ensures SkipExtras([LF] + tail, true, bound, i, CR as int) == RowEnd(i + 1, LF, tail, true, bound)
  {
    var last := [LF] + tail;
    assert last[1..] == tail && Peek(last) == LF;
    assert ReadPlain(last, [], CR as int) == Field([], LF, tail, 0);
  }

  lemma BoundAsRead(row: Bindings, bound: Bindings)
    requires |row| > |bound| > 0
    ensures bound[..0] + BoundRow(row, bound)[0..] == row[..|bound|]
  {
  }

  lemma {:induction false} RowTextExtra(row: Bindings)
    requires row != []
    ensures RowText(row + [None], [CR], [], [LF]) == RowText(row, [CR], [], [CR, LF])
  {
    hide FieldText;
    var longer := row + [None];
    assert longer[1..] == row[1..] + [None];
    if |row| == 1 {
      LastText();
      assert RowText(row, [CR], [], [CR, LF]) == FieldText(row[0], [CR], []) + [CR, LF];
    } else {
      RowTextExtra(row[1..]);
    }
  }

  lemma {:induction false} CrSeparatedRows(rows: seq<Bindings>, hasBuffer: bool, bound: Bindings)
    requires bound != [] && RowsPrintable(rows) && forall k :: 0 <= k < |rows| ==> |rows[k]| == |bound|
    ensures ImportRows(RowsText(rows, [CR], [], [CR, LF]), hasBuffer, bound, CR as int) == rows
  {
    hide ImportRow, RowText, CString;
    if rows == [] {
      EndOfRows(hasBuffer, bound, CR as int);
    } else {
      CrSeparatedRow(rows[0], RowsText(rows[1..], [CR], [], [CR, LF]), hasBuffer, bound);
      CrSeparatedRows(rows[1..], true, rows[0]);
    }
  }

  /** Rows of several columns, with either line end, read back unchanged if and only if the separator is below 128. */
  lemma RowsRoundTrip(rows: seq<Bindings>, eol: seq<byte>, sep: byte, bound: Bindings)
    requires eol == [LF] || eol == [CR, LF]
    requires |bound| > 1 && rows != [] && RowsPrintable(rows)
    requires forall k :: 0 <= k < |rows| ==> |rows[k]| == |bound|
    requires sep != 0 && sep != QUOTE && sep != LF && sep != 255
    ensures ImportRows(RowsText(rows, [sep], [], eol), false, bound, Signed(sep)) == rows <==> sep < 128
  {
    if eol == [CR, LF] && sep == CR {
      CrSeparatedRows(rows, false, bound);
    } else if sep < 128 {
      RowsBack(rows, eol, sep, false, bound);
    } else {
      ImportLosesFirst(RowsText(rows, [sep], [], eol), false, bound, sep);
      assert rows[0][0].Some?;
    }
  }

  /** Two letters, printed with the separator 200. */
  lemma HighSeparatorLost()
    ensures
      var row: Bindings := [Some([97]), Some([98])];
      ImportRows(RowsText([row], [200], [], [LF]), false, [None, None], Signed(200)) != [row]
  {
    var row: Bindings := [Some([97]), Some([98])];
    RowsRoundTrip([row], [LF], 200, [None, None]);
  }

  // ---- When the import ends.

  /** The loop over extra fields, given at most `turns` turns; `None` when they do not end it. */
  function SkipWithin(turns: nat, rest: seq<byte>, hasBuffer: bool, bound: Bindings, i: nat, sep: int)
    : (e: Option<RowEnd>)
    ensures e.Some? ==> |e.value.bound| == |bound|
  {
    if turns == 0 then None
    else
      var r := ReadOne(rest, hasBuffer, sep);
      if r.term == sep then SkipWithin(turns - 1, r.rest, r.hasBuffer, bound, i + 1, sep)
      else Some(RowEnd(i + 1, r.term, r.rest, r.hasBuffer, bound))
  }

  /** The import, with any separator, given at most `turns` turns of each loop; `None` when they do not end it. */
  function ImportWithin(turns: nat, rest: seq<byte>, hasBuffer: bool, bound: Bindings, sep: int)
    : Option<seq<Bindings>>
    requires bound != []
  {
    if turns == 0 then None
    else
      var r := ReadRow(rest, hasBuffer, bound, 0, EOF, sep);
      var o := if r.term == sep then SkipWithin(turns, r.rest, r.hasBuffer, r.bound, r.i, sep) else Some(r);
      match o
      case None => None
      case Some(e) =>
        var row := if e.i >= |bound| then [e.bound] else [];
        if e.term == EOF then Some(row)
        else
          match ImportWithin(turns - 1, e.rest, e.hasBuffer, e.bound, sep)
          case None => None
          case Some(rows) => Some(row + rows)
  }

  lemma {:induction false} SkipEnds(turns: nat, rest: seq<byte>, hasBuffer: bool, bound: Bindings, i: nat, sep: int)
    requires sep != EOF && turns > |rest|
    ensures SkipWithin(turns, rest, hasBuffer, bound, i, sep) == Some(SkipExtras(rest, hasBuffer, bound, i, sep))
    decreases turns
  {
    var r := ReadOne(rest, hasBuffer, sep);
    if r.term == sep {
      SkipEnds(turns - 1, r.rest, r.hasBuffer, bound, i + 1, sep);
    }
  }

  lemma {:induction false} SkipNeverEnds(turns: nat, hasBuffer: bool, bound: Bindings, i: nat)
    ensures SkipWithin(turns, [], hasBuffer, bound, i, EOF) == None
  {
    if turns > 0 {
      SkipNeverEnds(turns - 1, hasBuffer, bound, i + 1);
    }
  }

  lemma {:induction false} ImportEnds(turns: nat, rest: seq<byte>, hasBuffer: bool, bound: Bindings, sep: int)
    requires bound != [] && sep != EOF && turns > |rest|
    ensures ImportWithin(turns, rest, hasBuffer, bound, sep) == Some(ImportRows(rest, hasBuffer, bound, sep))
    decreases turns
  {
    hide ReadRow, SkipWithin, SkipExtras;
    var r := ReadRow(rest, hasBuffer, bound, 0, EOF, sep);
    if r.term == sep {
      SkipEnds(turns, r.rest, r.hasBuffer, r.bound, r.i, sep);
    }
    var e := ImportRow(rest, hasBuffer, bound, sep);
    ImportStep(rest, hasBuffer, bound, sep);
    var row: seq<Bindings> := if e.i >= |bound| then [e.bound] else [];
    assert row + [] == row;
    if e.term != EOF {
      ImportEnds(turns - 1, e.rest, e.hasBuffer, e.bound, sep);
    }
  }

  /** At the end of the input, where the separator 255 looks like another field to come, there is no input left. */
  lemma {:induction false} RowAtEnd(rest: seq<byte>, hasBuffer: bool, bound: Bindings, i: nat, term: int)
    requires i <= |bound| && (i == |bound| && term == EOF ==> rest == [])
    ensures var e := ReadRow(rest, hasBuffer, bound, i, term, EOF); e.term == EOF ==> e.rest == []
    decreases |bound| - i
  {
    if i < |bound| {
      ReadAtEnd(rest, hasBuffer);
      var r := ReadOne(rest, hasBuffer, EOF);
      RowAtEnd(r.rest, r.hasBuffer, bound[i := r.z], i + 1, r.term);
    }
  }

  lemma ReadAtEnd(rest: seq<byte>, hasBuffer: bool)
    ensures var r := ReadOne(rest, hasBuffer, EOF); r.term == EOF ==> r.rest == []
  {
    if rest != [] {
      if rest[0] == QUOTE {
        QuotedAtEnd(rest[1..], [], 0, 0, 0);
      } else {
        PlainAtEnd(rest, []);
      }
    }
  }

  lemma {:induction false} QuotedAtEnd(rest: seq<byte>, z: seq<byte>, pc: int, ppc: int, reports: nat)
    requires Pending(z, pc, ppc)
    ensures var f := ReadQuoted(rest, z, pc, ppc, EOF, reports); f.term == EOF ==> f.rest == []
    decreases |rest|
  {
    var c := Peek(rest);
    if c == QUOTE && pc == QUOTE {
      QuotedAtEnd(rest[1..], z, 0, ppc, reports);
    } else if !Closes(c, pc, ppc, EOF) && c != EOF {
      QuotedAtEnd(rest[1..], z + [rest[0]], c, pc, if pc == QUOTE && c != CR then reports + 1 else reports);
    }
  }

  lemma {:induction false} PlainAtEnd(rest: seq<byte>, z: seq<byte>)
    ensures var f := ReadPlain(rest, z, EOF); f.term == EOF ==> f.rest == []
    decreases |rest|
  {
    var c := Peek(rest);
    if c != EOF && c != LF {
      PlainAtEnd(rest[1..], z + [rest[0]]);
    }
  }

  lemma {:induction false} ImportNeverEnds(turns: nat, rest: seq<byte>, hasBuffer: bool, bound: Bindings)
    requires bound != []
    ensures ImportWithin(turns, rest, hasBuffer, bound, EOF) == None
  {
    hide ReadRow, SkipWithin;
    if turns > 0 {
      var r := ReadRow(rest, hasBuffer, bound, 0, EOF, EOF);
      if r.term == EOF {
        RowAtEnd(rest, hasBuffer, bound, 0, 0);
        RowStartTerm(rest, hasBuffer, bound, EOF);
        SkipNeverEnds(turns, r.hasBuffer, r.bound, r.i);
      } else {
        ImportNeverEnds(turns - 1, r.rest, r.hasBuffer, r.bound);
      }
    }
  }

  lemma RowStartTerm(rest: seq<byte>, hasBuffer: bool, bound: Bindings, sep: int)
    requires bound != []
    ensures ReadRow(rest, hasBuffer, bound, 0, 0, sep) == ReadRow(rest, hasBuffer, bound, 0, EOF, sep)
  {
  }

  /**
   * The import of any input ends if and only if the separator is not 255, which as a signed `char` is EOF; when it ends
   * it inserts the rows of `ImportRows`.
   */
  lemma ImportTerminates(rest: seq<byte>, hasBuffer: bool, bound: Bindings, sep: byte)
    requires bound != []
    ensures (exists turns :: ImportWithin(turns, rest, hasBuffer, bound, Signed(sep)).Some?) <==> sep != 255
    ensures sep != 255 ==> forall turns :: turns > |rest| ==>
              ImportWithin(turns, rest, hasBuffer, bound, Signed(sep))
              == Some(ImportRows(rest, hasBuffer, bound, Signed(sep)))
  {
    hide ImportWithin, ImportRows;
    if sep == 255 {
      forall turns: nat
        ensures ImportWithin(turns, rest, hasBuffer, bound, Signed(sep)) == None
      {
        ImportNeverEnds(turns, rest, hasBuffer, bound);
      }
    } else {
      forall turns: nat | turns > |rest|
        ensures ImportWithin(turns, rest, hasBuffer, bound, Signed(sep))
                == Some(ImportRows(rest, hasBuffer, bound, Signed(sep)))
      {
        ImportEnds(turns, rest, hasBuffer, bound, Signed(sep));
      }
      assert ImportWithin(|rest| + 1, rest, hasBuffer, bound, Signed(sep)).Some?;
    }
  }

  class CsvReader {
    var rest: seq<byte>
    var z: seq<byte>
    var hasBuffer: bool
    var nLine: nat
    var cTerm: int
    var reports: nat
    const cSeparator: int

    constructor (input: seq<byte>, separator: byte)
      ensures rest == input && !hasBuffer && nLine == 1 && reports == 0 && cSeparator == Signed(separator)
    {
      rest, z, hasBuffer, nLine, cTerm, reports := input, [], false, 1, 0, 0;
      cSeparator := Signed(separator);
    }

    method GetC() returns (c: int)
      modifies this`rest
      ensures c == Peek(old(rest)) && rest == Tail(old(rest))
    {
      c := Peek(rest);
      rest := Tail(rest);
    }

    method AppendChar(c: byte)
      modifies this`z, this`hasBuffer
      ensures z == old(z) + [c] && hasBuffer
    {
      z, hasBuffer := z + [c], true;
    }

    /** The loop of a quoted field, entered after its opening quote. */
    method ReadQuotedText()
      requires z == []
      modifies this
      ensures var f := ReadQuoted(old(rest), [], 0, 0, cSeparator, 0);
              f.text == z && f.term == cTerm && f.rest == rest && old(reports) + f.reports == reports
      ensures nLine + Lines(rest) == old(nLine) + Lines(old(rest))
      ensures hasBuffer == (old(hasBuffer) || old(rest) != [])
    {
      hide BeforeQuote;
      var pc, ppc := 0, 0;
      ghost var first, n0, had := rest, reports, hasBuffer;
      while true
        invariant Pending(z, pc, ppc) && n0 <= reports && |rest| <= |first|
        invariant nLine + Lines(rest) == old(nLine) + Lines(first)
        invariant ReadQuoted(rest, z, pc, ppc, cSeparator, reports - n0) == ReadQuoted(first, [], 0, 0, cSeparator, 0)
        invariant |rest| == |first| ==> rest == first && pc == 0 && hasBuffer == had
        invariant |rest| < |first| ==> hasBuffer
        decreases |rest|
      {
        var c := GetC();
        if c == LF {
          nLine := nLine + 1;
        }
        if c == QUOTE {
          if pc == QUOTE {
            pc := 0;
            continue;
          }
        }
        if Closes(c, pc, ppc, cSeparator) {
          RemoveQuote();
          cTerm := c;
          break;
        }
        if pc == QUOTE && c != CR {
          reports := reports + 1;
        }
        if c == EOF {
          reports := reports + 1;
          cTerm := EOF;
          break;
        }
        AppendChar(c);
        ppc := pc;
        pc := c;
      }
    }

    /** The do-while loop that takes the closing quote, and what follows it, off the buffer. */
    method RemoveQuote()
      requires QUOTE in z
      modifies this`z
      ensures z == BeforeQuote(old(z))
    {
      var last := z[|z|-1];
      z := z[..|z|-1];
      while last != QUOTE
        invariant QUOTE in z + [last] && BeforeQuote(z + [last]) == BeforeQuote(old(z))
        decreases |z|
      {
        assert (z + [last])[..|z|] == z;
        ghost var shorter := z;
        last := z[|z|-1];
        z := z[..|z|-1];
        assert z + [last] == shorter;
      }
      assert (z + [last])[..|z|] == z;
    }

    /** The loop of an unquoted field, entered with its first character. */
    method ReadPlainText(first: byte)
      requires z == []
      modifies this
      ensures ReadPlain([first] + old(rest), [], cSeparator) == Field(z, cTerm, rest, 0) && reports == old(reports)
      ensures nLine + Lines(rest) == old(nLine) + Lines([first] + old(rest))
      ensures hasBuffer == (old(hasBuffer) || (first != cSeparator && first != LF))
    {
      var c: int := first;
      ghost var unread, had := [first] + rest, hasBuffer;
      while c != EOF && c != cSeparator && c != LF
        invariant c == Peek(unread) && rest == Tail(unread) && reports == old(reports)
        invariant ReadPlain(unread, z, cSeparator) == ReadPlain([first] + old(rest), [], cSeparator)
        invariant nLine + Lines(unread) == old(nLine) + Lines([first] + old(rest))
        invariant (c == first && hasBuffer == had) || (hasBuffer && first != cSeparator && first != LF)
        decreases |unread|
      {
        unread := rest;
        AppendChar(c);
        c := GetC();
      }
      if c == LF {
        nLine := nLine + 1;
        if |z| > 1 && z[|z|-1] == CR {
          z := z[..|z|-1];
        }
      }
      cTerm := c;
    }

    /** `csv_read_one_field`; `r` is the pointer it returns. Every line feed consumed is counted. */
    method ReadOneField() returns (r: Option<seq<byte>>)
      modifies this
      ensures Read(r, cTerm, rest, hasBuffer) == ReadOne(old(rest), old(hasBuffer), cSeparator)
      ensures nLine + Lines(rest) == old(nLine) + Lines(old(rest))
      ensures var f := ReadField(old(rest), cSeparator);
              reports == old(reports) + (if f.Some? then f.value.reports else 0) && (f.Some? ==> z == f.value.text)
    {
      z := [];
      var c := GetC();
      if c == EOF {
        cTerm := EOF;
        return None;
      }
      if c == QUOTE {
        ReadQuotedText();
      } else {
        assert old(rest) == [c] + rest;
        ReadPlainText(c);
      }
      r := if hasBuffer then Some(BeforeZero(z)) else None;
    }

    /** The loop over the columns of one row. */
    method BindRow(bound: Bindings) returns (i: nat, b: Bindings)
      requires bound != []
      modifies this
      ensures ReadRow(old(rest), old(hasBuffer), bound, 0, EOF, cSeparator) == RowEnd(i, cTerm, rest, hasBuffer, b)
      ensures nLine + Lines(rest) == old(nLine) + Lines(old(rest))
    {
      i, b := 0, bound;
      ghost var row := ReadRow(rest, hasBuffer, bound, 0, EOF, cSeparator);
      ghost var term: int := EOF;
      while i < |bound|
        invariant |b| == |bound| && 0 <= i <= |bound| + 1
        invariant i > 0 ==> term == cTerm
        invariant nLine + Lines(rest) == old(nLine) + Lines(old(rest))
        invariant if i <= |bound| then ReadRow(rest, hasBuffer, b, i, term, cSeparator) == row
                  else row == RowEnd(i, cTerm, rest, hasBuffer, b)
      {
        var z := ReadOneField();
        term := cTerm;
        if z.None? && i == 0 {
          break;
        }
        b := b[i := z];
        if i < |b| - 1 && cTerm != cSeparator {
          ghost var nulled := BindNulls(b, i);
          i := i + 1;
          while i < |b|
            invariant 1 <= i <= |b| == |bound| && BindNulls(b, i - 1) == nulled
          {
            b := b[i-1 := None];
            i := i + 1;
          }
        }
        i := i + 1;
      }
    }

    /** The loop that skips the fields beyond the last column. */
    method SkipFields(n: nat, ghost bound: Bindings) returns (i: nat)
      requires cSeparator != EOF
      modifies this
      ensures SkipExtras(old(rest), old(hasBuffer), bound, n, cSeparator) == RowEnd(i, cTerm, rest, hasBuffer, bound)
      ensures nLine + Lines(rest) == old(nLine) + Lines(old(rest))
    {
      var _ := ReadOneField();
      i := n + 1;
      while cTerm == cSeparator
        invariant SkipExtras(old(rest), old(hasBuffer), bound, n, cSeparator)
                  == if cTerm == cSeparator then SkipExtras(rest, hasBuffer, bound, i, cSeparator)
                     else RowEnd(i, cTerm, rest, hasBuffer, bound)
        invariant nLine + Lines(rest) == old(nLine) + Lines(old(rest))
        decreases |rest|, if cTerm == cSeparator then 1 else 0
      {
        var _ := ReadOneField();
        i := i + 1;
      }
    }

    /** The loop of `.import`: the rows handed to the prepared statement. */
    method Import(nCol: nat) returns (rows: seq<Bindings>)
      requires nCol > 0 && cSeparator != EOF
      modifies this
      ensures rows == ImportRows(old(rest), old(hasBuffer), seq(nCol, _ => None), cSeparator)
      ensures nLine + Lines(rest) == old(nLine) + Lines(old(rest))
    {
      hide ReadRow, SkipExtras, ReadOne, ImportRows, Lines;
      rows := [];
      var bound: Bindings := seq(nCol, _ => None);
      while true
        invariant |bound| == nCol
        invariant nLine + Lines(rest) == old(nLine) + Lines(old(rest))
        invariant rows + ImportRows(rest, hasBuffer, bound, cSeparator)
                  == ImportRows(old(rest), old(hasBuffer), seq(nCol, _ => None), cSeparator)
        decreases |rest|
      {
        ghost var inserted, later := rows, ImportRows(rest, hasBuffer, bound, cSeparator);
        ghost var e := ImportRow(rest, hasBuffer, bound, cSeparator);
        ImportStep(rest, hasBuffer, bound, cSeparator);
        var i: nat;
        i, bound := BindRow(bound);
        if cTerm == cSeparator {
          i := SkipFields(i, bound);
        }
        assert e == RowEnd(i, cTerm, rest, hasBuffer, bound);
        if i >= nCol {
          rows := rows + [bound];
        }
        if cTerm == EOF {
          break;
        }
        ghost var next := ImportRows(rest, hasBuffer, bound, cSeparator);
        ghost var row: seq<Bindings> := if i >= nCol then [bound] else [];
        assert rows == inserted + row && later == row + next;
        Joined(inserted, row, next);
      }
    }
  }
}
