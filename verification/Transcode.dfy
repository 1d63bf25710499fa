/** Code pages: the reverse table of a 256-entry map, and the conversions to and from UTF-8. */
module Transcode {
  import opened Types
  import opened Utf

  const ALL_CHARS_LEN := 0x100

  type CodePage = m: seq<uint16> | |m| == ALL_CHARS_LEN witness seq(ALL_CHARS_LEN, _ => 0)

  /** The greatest byte below `n` that maps to `u`. */
  function LastByte(page: CodePage, u: uint16, n: nat): (c: Option<byte>)
    requires n <= ALL_CHARS_LEN
    ensures c.Some? ==> c.value < n && page[c.value] == u
    ensures forall i :: 0 <= i < n && page[i] == u ==> c.Some? && i <= c.value
  {
    if n == 0 then None
    else if page[n - 1] == u then Some(n - 1)
    else LastByte(page, u, n - 1)
  }

  /** The reverse map that the last mapping of each unit wins. */
  function ByteFor(page: CodePage, u: uint16): Option<byte> {
    LastByte(page, u, ALL_CHARS_LEN)
  }

  /** UTF-8 of one byte of the code page: `utf16_to_utf8` of its unit followed by zero. */
  function CharToUtf8(page: CodePage, b: byte): Option<seq<byte>> {
    match Utf16ToUcs4(page[b], 0)
    case None => None
    case Some(x) => Ucs4ToUtf8(x)
  }

  function ToUtf8Of(page: CodePage, s: seq<byte>): Option<seq<byte>> {
    if s == [] then Some([])
    else
      match (ToUtf8Of(page, s[..|s|-1]), CharToUtf8(page, s[|s|-1]))
      case (Some(a), Some(b)) => Some(a + b)
      case _ => None
  }

  /** The first symbol of the input: its length and the code-page byte for it. */
  function Symbol(page: CodePage, u: seq<byte>): (r: Option<(nat, byte)>)
    requires u != []
    ensures r.Some? ==> 1 <= r.value.0 <= |u|
  {
    var n := Utf8Size(u[0]);
    if n > |u| then None
    else
      match Utf8ToUcs4(u)
      case None => None
      case Some(d) =>
        DecodedSymbol(u);
        match Ucs4ToUtf16(d.ucs4, 0)
        case None => None
        case Some(units) =>
          match ByteFor(page, units.0)
          case None => None
          case Some(c) => Some((n, c))
  }

  function FromUtf8Of(page: CodePage, u: seq<byte>): Option<seq<byte>>
    decreases |u|
  {
    if u == [] then Some([])
    else
      match Symbol(page, u)
      case None => None
      case Some((n, c)) =>
        match FromUtf8Of(page, u[n..])
        case None => None
        case Some(rest) => Some([c] + rest)
  }

  class Transcoder {
    const page: CodePage
    const hashTable: array<map<uint16, byte>>

    /** The 256-way table holds exactly the last-write-wins inverse of the code page. */
    ghost predicate Valid()
      reads this, hashTable
    {
      Inverse(ALL_CHARS_LEN)
    }

    ghost predicate Inverse(n: nat)
      requires n <= ALL_CHARS_LEN
      reads this, hashTable
    {
      hashTable.Length == ALL_CHARS_LEN
      && forall u: uint16 :: Entry(u) == LastByte(page, u, n)
    }

    function Entry(u: uint16): Option<byte>
      reads this, hashTable
    {
      if hashTable.Length == ALL_CHARS_LEN && u in hashTable[u % ALL_CHARS_LEN]
      then Some(hashTable[u % ALL_CHARS_LEN][u]) else None
    }

    constructor (page: CodePage)
      ensures Valid() && this.page == page && fresh(hashTable)
    {
      this.page := page;
      hashTable := new map<uint16, byte>[ALL_CHARS_LEN](_ => map[]);
      new;
      var i := 0;
      while i < ALL_CHARS_LEN
        invariant 0 <= i <= ALL_CHARS_LEN && Inverse(i)
      {
        AddMapping(page[i], i);
        i := i + 1;
      }
    }

    method AddMapping(u: uint16, c: byte)
      requires hashTable.Length == ALL_CHARS_LEN
      modifies hashTable
      ensures forall v: uint16 :: Entry(v) == if v == u then Some(c) else old(Entry(v))
    {
      hashTable[u % ALL_CHARS_LEN] := hashTable[u % ALL_CHARS_LEN][u := c];
    }

    method GetChar(u: uint16) returns (c: Option<byte>)
      requires Valid()
      ensures c == ByteFor(page, u)
    {
      var mapping := hashTable[u % ALL_CHARS_LEN];
      assert Entry(u) == ByteFor(page, u);
      if u !in mapping {
        return None;
      }
      return Some(mapping[u]);
    }

    method ToUtf8(src: seq<byte>) returns (ok: bool, out: seq<byte>)
      ensures ok <==> ToUtf8Of(page, src).Some?
      ensures ok ==> out == ToUtf8Of(page, src).value
    {
      out := [];
      var c := 0;
      while c < |src|
        invariant 0 <= c <= |src| && ToUtf8Of(page, src[..c]) == Some(out)
      {
        assert src[..c + 1][..c] == src[..c];
        var utf8 := CharToUtf8(page, src[c]);
        if utf8.None? {
          NoneLater(page, src, c + 1);
          return false, out;
        }
        out := out + utf8.value;
        c := c + 1;
      }
      assert src[..c] == src;
      return true, out;
    }

    /** `FromUtf8` of one symbol at position `p`. */
    method FromUtf8Symbol(src: seq<byte>, p: nat) returns (ok: bool, n: nat, c: byte)
      requires Valid() && p < |src|
      ensures ok <==> Symbol(page, src[p..]).Some?
      ensures ok ==> Symbol(page, src[p..]).value == (n, c)
    {
      var rest := src[p..];
      n, c := Utf8Size(rest[0]), 0;
      if n > |src| - p {
        return false, n, c;
      }
      var decoded := Utf8ToUcs4(rest);
      if decoded.None? {
        return false, n, c;
      }
      var units := Ucs4ToUtf16(decoded.value.ucs4, 0);
      if units.None? {
        return false, n, c;
      }
      var found := GetChar(units.value.0);
      if found.None? {
        return false, n, c;
      }
      return true, n, found.value;
    }

    method FromUtf8(src: seq<byte>) returns (ok: bool, out: seq<byte>)
      requires Valid()
      ensures ok <==> FromUtf8Of(page, src).Some?
      ensures ok ==> out == FromUtf8Of(page, src).value
    {
      hide Symbol, ByteFor, Inverse;
      out := [];
      var p := 0;
      while p < |src|
        invariant 0 <= p <= |src|
        invariant FromUtf8Of(page, src).Some? <==> FromUtf8Of(page, src[p..]).Some?
        invariant FromUtf8Of(page, src).Some? ==>
                    FromUtf8Of(page, src).value == out + FromUtf8Of(page, src[p..]).value
        decreases |src| - p
      {
        var one, n, c := FromUtf8Symbol(src, p);
        if !one {
          return false, out;
        }
        assert src[p..][n..] == src[p + n..];
        out := out + [c];
        p := p + n;
      }
      return true, out;
    }
  }

  lemma {:induction false} NoneLater(page: CodePage, s: seq<byte>, n: nat)
    requires n <= |s| && ToUtf8Of(page, s[..n]).None?
    ensures ToUtf8Of(page, s).None?
    decreases |s| - n
  {
    if n < |s| {
      assert s[..n + 1][..n] == s[..n];
      NoneLater(page, s, n + 1);
    } else {
      assert s[..n] == s;
    }
  }

  // Round trips

  /** The unit of the byte is neither zero, nor a high surrogate, nor 0xFFFE or 0xFFFF, nor that of a higher byte. */
  predicate Survives(page: CodePage, b: byte) {
    var u := page[b];
    0 < u < 0xFFFE && !(0xD800 <= u < 0xDC00) && ByteFor(page, u) == Some(b)
  }

  /** What the first symbol of an encoded byte decodes to. */
  lemma EncodedSymbol(page: CodePage, b: byte, rest: seq<byte>)
    requires CharToUtf8(page, b).Some?
    ensures
      var e := CharToUtf8(page, b).value;
      var u := page[b];
      && e == Encode(u) && e != []
      && Symbol(page, e + rest) == if u == 0 then None else Some((|e|, ByteFor(page, u).value))
  {
    var u := page[b];
    var e := CharToUtf8(page, b).value;
    SizeOfEncoding(u);
    assert (e + rest)[0] == e[0];
    if u == 0 {
      ZeroDoesNotDecode(rest);
    } else {
      DecodeEncode(u, rest);
      assert Utf8Size((e + rest)[0]) == |e|;
      assert page[b] == u && ByteFor(page, u).Some?;
      assert Ucs4ToUtf16(u, 0) == Some((u, 0));
    }
  }

  lemma {:induction false} ToUtf8Front(page: CodePage, s: seq<byte>)
    requires s != []
    ensures ToUtf8Of(page, s) ==
            match (CharToUtf8(page, s[0]), ToUtf8Of(page, s[1..]))
            case (Some(a), Some(b)) => Some(a + b)
            case _ => None
  {
    if |s| == 1 {
      assert s[..0] == [] && s[1..] == [];
      var a := CharToUtf8(page, s[0]);
      if a.Some? {
        assert [] + a.value == a.value == a.value + [];
      }
    } else {
      var t := s[1..];
      ToUtf8Front(page, s[..|s|-1]);
      assert s[..|s|-1][1..] == t[..|t|-1] && t[|t|-1] == s[|s|-1] && s[..|s|-1][0] == s[0];
      var a, m, z := CharToUtf8(page, s[0]), ToUtf8Of(page, t[..|t|-1]), CharToUtf8(page, t[|t|-1]);
      assert ToUtf8Of(page, t).Some? <==> m.Some? && z.Some?;
      if a.Some? && m.Some? && z.Some? {
        assert ToUtf8Of(page, t).value == m.value + z.value;
        assert (a.value + m.value) + z.value == a.value + (m.value + z.value);
      }
    }
  }

  /** Converting a string to UTF-8 and back gives the same string exactly when every byte survives. */
  lemma {:induction false} CodePageRoundTrip(page: CodePage, s: seq<byte>)
    ensures (ToUtf8Of(page, s).Some? && FromUtf8Of(page, ToUtf8Of(page, s).value) == Some(s))
       <==> forall b :: b in s ==> Survives(page, b)
    decreases |s|
  {
    if s != [] {
      ToUtf8Front(page, s);
      CodePageRoundTrip(page, s[1..]);
      assert s == [s[0]] + s[1..];
      assert (forall b :: b in s ==> Survives(page, b)) <==>
             Survives(page, s[0]) && forall b :: b in s[1..] ==> Survives(page, b);
      if CharToUtf8(page, s[0]).Some? && ToUtf8Of(page, s[1..]).Some? {
        var e, rest := CharToUtf8(page, s[0]).value, ToUtf8Of(page, s[1..]).value;
        EncodedSymbol(page, s[0], rest);
        assert (e + rest)[|e|..] == rest;
        var c, back := ByteFor(page, page[s[0]]).value, FromUtf8Of(page, rest);
        if page[s[0]] != 0 && back.Some? {
          assert FromUtf8Of(page, e + rest) == Some([c] + back.value);
          assert ([c] + back.value)[1..] == back.value && ([c] + back.value)[0] == c;
        }
      }
    }
  }

  /** Every symbol is the encoding of the value it decodes to. */
  predicate Shortest(u: seq<byte>)
    decreases |u|
  {
    u == [] ||
    (Utf8ToUcs4(u).Some? &&
     var n, x := Utf8Size(u[0]), Utf8ToUcs4(u).value.ucs4;
     1 <= n <= |u| && x < 0x8000_0000 && u[..n] == Encode(x) && Shortest(u[n..]))
  }

  predicate NoHighSurrogates(page: CodePage) {
    forall b :: 0 <= b < ALL_CHARS_LEN ==> !(0xD800 <= page[b] < 0xDC00)
  }

  /** An accepted symbol becomes a byte whose unit is the value of the symbol. */
  lemma AcceptedSymbol(page: CodePage, u: seq<byte>)
    requires NoHighSurrogates(page) && u != [] && Symbol(page, u).Some?
    ensures
      var (n, c) := Symbol(page, u).value;
      var x := Utf8ToUcs4(u).value.ucs4;
      && x < 0x1_0000 && CharToUtf8(page, c) == Some(Encode(x))
      && |Encode(x)| <= n && (|Encode(x)| == n <==> Encode(x) == u[..n])
  {
    DecodedSymbol(u);
  }

  lemma {:induction false} NotLonger(page: CodePage, u: seq<byte>)
    requires NoHighSurrogates(page) && FromUtf8Of(page, u).Some?
    ensures ToUtf8Of(page, FromUtf8Of(page, u).value).Some?
    ensures |ToUtf8Of(page, FromUtf8Of(page, u).value).value| <= |u|
    decreases |u|
  {
    if u != [] {
      var (n, c) := Symbol(page, u).value;
      AcceptedSymbol(page, u);
      NotLonger(page, u[n..]);
      var s := FromUtf8Of(page, u).value;
      assert s[1..] == FromUtf8Of(page, u[n..]).value;
      ToUtf8Front(page, s);
    }
  }

  /**
   * Over a code page without high surrogates, converting accepted UTF-8 to the code page and back gives the same
   * bytes exactly when every symbol was in its shortest form.
   */
  lemma {:induction false} Utf8RoundTrip(page: CodePage, u: seq<byte>)
    requires NoHighSurrogates(page) && FromUtf8Of(page, u).Some?
    ensures ToUtf8Of(page, FromUtf8Of(page, u).value) == Some(u) <==> Shortest(u)
    decreases |u|
  {
    if u != [] {
      var (n, c) := Symbol(page, u).value;
      AcceptedSymbol(page, u);
      Utf8RoundTrip(page, u[n..]);
      NotLonger(page, u[n..]);
      var s := FromUtf8Of(page, u).value;
      assert s[1..] == FromUtf8Of(page, u[n..]).value;
      ToUtf8Front(page, s);
      var e := Encode(Utf8ToUcs4(u).value.ucs4);
      var rest := ToUtf8Of(page, s[1..]).value;
      assert u == u[..n] + u[n..];
      if e + rest == u {
        assert |e| == n;
        assert rest == u[n..];
      }
    }
  }

  // ---- Input that does not come back

  /** The page on which every byte is its own unit. */
  const IDENTITY: CodePage := seq(ALL_CHARS_LEN, i requires 0 <= i < ALL_CHARS_LEN => i)

  lemma OneSymbol(page: CodePage, u: seq<byte>, c: byte)
    requires u != [] && Symbol(page, u) == Some((|u|, c))
    ensures FromUtf8Of(page, u) == Some([c])
  {
    hide Symbol;
    var none: seq<byte> := [];
    assert u[|u|..] == none && FromUtf8Of(page, none) == Some(none);
    assert [c] + none == [c];
  }

  lemma OneByte(page: CodePage, b: byte)
    requires CharToUtf8(page, b).Some?
    ensures ToUtf8Of(page, [b]) == CharToUtf8(page, b)
  {
    var s, e := [b], CharToUtf8(page, b).value;
    assert s[..0] == [] && ToUtf8Of(page, s[..0]) == Some([]) && [] + e == e;
  }

  /** Two bytes written for the letter A, one too many, come back as one. */
  lemma OverlongLost()
    ensures FromUtf8Of(IDENTITY, [0xC1, 0x81]) == Some([0x41]) && ToUtf8Of(IDENTITY, [0x41]) == Some([0x41])
  {
    var u: seq<byte> := [0xC1, 0x81];
    assert ByteFor(IDENTITY, 0x41) == Some(0x41) by {
      assert IDENTITY[0x41] == 0x41;
      assert forall c :: 0 <= c < ALL_CHARS_LEN && IDENTITY[c] == 0x41 ==> c == 0x41;
    }
    hide ByteFor;
    assert Utf8ToUcs4(u) == Some(Decoded(0x41, 2));
    assert Symbol(IDENTITY, u) == Some((2, 0x41));
    OneSymbol(IDENTITY, u, 0x41);
    OneByte(IDENTITY, 0x41);
  }

  /** Byte 1, on a page where it has the unit of byte 65, comes back as byte 65. */
  lemma SharedUnitLost()
    ensures
      var page: CodePage := IDENTITY[1 := 0x41];
      ToUtf8Of(page, [1]) == Some([0x41]) && FromUtf8Of(page, [0x41]) == Some([0x41])
  {
    var page: CodePage := IDENTITY[1 := 0x41];
    assert ByteFor(page, 0x41) == Some(0x41) by {
      assert page[0x41] == 0x41;
      assert forall c :: 0x41 < c < ALL_CHARS_LEN ==> page[c] != 0x41;
    }
    hide ByteFor;
    var u: seq<byte> := [0x41];
    assert Symbol(page, u) == Some((1, 0x41));
    OneSymbol(page, u, 0x41);
    OneByte(page, 1);
  }
}
