/** C-style quoting: the printer, the in-place unescaping and the argument tokenizer of the shell. */
module Quoting {
  import opened Types

  const BACKSLASH: byte := 92
  const DQUOTE: byte := 34
  const SQUOTE: byte := 39
  const MAX_ARGS := 50

  /** `isprint` of the C locale. */
  predicate IsPrint(c: byte) {
    32 <= c < 127
  }

  predicate IsSpace(c: byte) {
    c == 32 || 9 <= c <= 13
  }

  predicate Blank(ws: seq<byte>) {
    forall k :: 0 <= k < |ws| ==> IsSpace(ws[k])
  }

  predicate Octal(c: byte) {
    48 <= c <= 55
  }

  function OctalValue(c: byte): (v: int)
    requires Octal(c)
    ensures 0 <= v < 8
  {
    c - 48
  }

  // ---- The printer.

  function Escape(c: byte): (e: seq<byte>)
    ensures e != []
  {
    if c == BACKSLASH || c == DQUOTE then [BACKSLASH, c]
    else if c == 9 then [BACKSLASH, 116]
    else if c == 10 then [BACKSLASH, 110]
    else if c == 13 then [BACKSLASH, 114]
    else if !IsPrint(c) then [BACKSLASH, 48 + c / 64, 48 + c / 8 % 8, 48 + c % 8]
    else [c]
  }

  function Escaped(z: seq<byte>): (e: seq<byte>)
    ensures z == [] ==> e == []
  {
    if z == [] then [] else Escape(z[0]) + Escaped(z[1..])
  }

  function Quoted(z: seq<byte>): seq<byte> {
    [DQUOTE] + Escaped(z) + [DQUOTE]
  }

  lemma EscapedSnoc(z: seq<byte>, k: nat)
    requires k < |z|
    ensures Escaped(z[..k+1]) == Escaped(z[..k]) + Escape(z[k])
  {
    hide Escape;
    if k == 0 {
      assert z[..1][1..] == [];
    } else {
      EscapedSnoc(z[1..], k - 1);
      assert z[..k+1][1..] == z[1..][..k] && z[..k][1..] == z[1..][..k-1];
    }
  }

  method OutputCString(z: seq<byte>) returns (out: seq<byte>)
    ensures out == Quoted(z)
  {
    hide Escape, Escaped;
    out := [DQUOTE];
    var k := 0;
    while k < |z|
      invariant 0 <= k <= |z|
      invariant out == [DQUOTE] + Escaped(z[..k])
    {
      EscapedSnoc(z, k);
      var e := OutputChar(z[k]);
      out := out + e;
      k := k + 1;
    }
    assert z[..k] == z;
    out := out + [DQUOTE];
  }

  /** The body of the printer's loop: what it writes for one character. */
  method OutputChar(c: byte) returns (out: seq<byte>)
    ensures out == Escape(c)
  {
    out := [];
    if c == BACKSLASH {
      out := out + [c];
      out := out + [c];
    } else if c == DQUOTE {
      out := out + [BACKSLASH];
      out := out + [DQUOTE];
    } else if c == 9 {
      out := out + [BACKSLASH];
      out := out + [116];
    } else if c == 10 {
      out := out + [BACKSLASH];
      out := out + [110];
    } else if c == 13 {
      out := out + [BACKSLASH];
      out := out + [114];
    } else if !IsPrint(c) {
      out := out + [BACKSLASH, 48 + c / 64, 48 + c / 8 % 8, 48 + c % 8];
    } else {
      out := out + [c];
    }
  }

  /** Printed text is visible ASCII, spaces included. */
  lemma {:induction false} PrintedVisible(z: seq<byte>)
    ensures forall i :: 0 <= i < |Escaped(z)| ==> 32 <= Escaped(z)[i] <= 126
  {
    if z != [] {
      PrintedVisible(z[1..]);
    }
  }

  /** It is the text itself if and only if that is visible ASCII without double quotes and backslashes. */
  lemma {:induction false} PrintedPlain(z: seq<byte>)
    ensures Escaped(z) == z <==> forall i :: 0 <= i < |z| ==> 32 <= z[i] <= 126 && z[i] != 34 && z[i] != 92
  {
    if z != [] {
      PrintedPlain(z[1..]);
      EscapedLonger(z[1..]);
      var e := Escape(z[0]);
      if |e| == 1 {
        assert (e + Escaped(z[1..]))[1..] == Escaped(z[1..]);
        assert forall i :: 0 <= i < |z| - 1 ==> z[1..][i] == z[i + 1];
      }
    }
  }

  lemma {:induction false} EscapedLonger(z: seq<byte>)
    ensures |Escaped(z)| >= |z|
  {
    if z != [] {
      EscapedLonger(z[1..]);
    }
  }

  /** Tabs and line ends are printed as \t, \n and \r. */
  lemma PrintedControls()
    ensures Escaped([9, 10, 13]) == [92, 116, 92, 110, 92, 114]
  {
    assert [9, 10, 13][1..] == [10, 13] && [10, 13][1..] == [13] && [13][1..] == [];
    assert Escaped([13]) == [92, 114];
    assert Escaped([10, 13]) == [92, 110] + Escaped([13]);
  }

  // ---- Unescaping.

  /** One resolved character and the number of characters it is written with. */
  datatype Piece = Piece(c: byte, n: nat)

  /** The first character of `s`; `None` when `s` is a lone backslash, after which the code runs past the string. */
  function First(s: seq<byte>): (p: Option<Piece>)
    requires s != []
    ensures p.Some? ==> 1 <= p.value.n <= |s|
  {
    if s[0] != BACKSLASH then Some(Piece(s[0], 1))
    else if |s| == 1 then None
    else if s[1] == 110 then Some(Piece(10, 2))
    else if s[1] == 116 then Some(Piece(9, 2))
    else if s[1] == 114 then Some(Piece(13, 2))
    else if !Octal(s[1]) then Some(Piece(s[1], 2))
    else if |s| == 2 || !Octal(s[2]) then Some(Piece(OctalValue(s[1]), 2))
    else if |s| == 3 || !Octal(s[3]) then Some(Piece(OctalValue(s[1]) * 8 + OctalValue(s[2]), 3))
    else Some(Piece((OctalValue(s[1]) * 64 + OctalValue(s[2]) * 8 + OctalValue(s[3])) % 256, 4))
  }

  function Resolve(s: seq<byte>): (r: Option<seq<byte>>)
    ensures r.Some? ==> |r.value| <= |s|
    decreases |s|
  {
    if s == [] then Some([])
    else
      match First(s)
      case None => None
      case Some(p) =>
        match Resolve(s[p.n..])
        case None => None
        case Some(rest) => Some([p.c] + rest)
  }

  /** The number that octal digits write. */
  function OctalNumber(d: seq<byte>): nat
    requires forall i :: 0 <= i < |d| ==> 48 <= d[i] <= 55
  {
    if d == [] then 0 else OctalNumber(d[..|d|-1]) * 8 + (d[|d|-1] - 48)
  }

  /** A backslash with one to three octal digits, as many as there are, is the byte of their number modulo 256. */
  lemma OctalEscape(d: seq<byte>, tail: seq<byte>)
    requires 1 <= |d| <= 3 && forall i :: 0 <= i < |d| ==> 48 <= d[i] <= 55
    requires |d| < 3 && tail != [] ==> !(48 <= tail[0] <= 55)
    ensures First([BACKSLASH] + d + tail) == Some(Piece(OctalNumber(d) % 256, 1 + |d|))
  {
    hide OctalNumber, First;
    OctalDigits(d);
    FirstOctal(d, tail);
  }

  function OctalByte(d: seq<byte>): byte
    requires 1 <= |d| <= 3 && forall i :: 0 <= i < |d| ==> 48 <= d[i] <= 55
  {
    var v := if |d| == 1 then OctalValue(d[0])
             else if |d| == 2 then OctalValue(d[0]) * 8 + OctalValue(d[1])
             else OctalValue(d[0]) * 64 + OctalValue(d[1]) * 8 + OctalValue(d[2]);
    v % 256
  }

  lemma OctalDigits(d: seq<byte>)
    requires 1 <= |d| <= 3 && forall i :: 0 <= i < |d| ==> 48 <= d[i] <= 55
    ensures OctalNumber(d) % 256 == OctalByte(d)
  {
    assert OctalNumber(d[..0]) == 0;
    if |d| == 1 {
      assert d[..0] == [];
    } else {
      var e := d[..|d|-1];
      assert e[..0] == [];
      assert e[..|e|-1] == d[..|e|-1];
      if |d| == 3 {
        assert e[..1][..0] == [] && e[..1][0] == d[0];
      }
    }
  }

  lemma FirstOctal(d: seq<byte>, tail: seq<byte>)
    requires 1 <= |d| <= 3 && forall i :: 0 <= i < |d| ==> 48 <= d[i] <= 55
    requires |d| < 3 && tail != [] ==> !(48 <= tail[0] <= 55)
    ensures First([BACKSLASH] + d + tail) == Some(Piece(OctalByte(d), 1 + |d|))
  {
    var s := [BACKSLASH] + d + tail;
    assert s[1] == d[0];
    assert |d| > 1 ==> s[2] == d[1];
    assert |d| > 2 ==> s[3] == d[2];
    assert |d| < 3 && tail != [] ==> s[1 + |d|] == tail[0];
  }

  /** Any other character after a backslash is itself, but for n, t and r. */
  lemma OtherEscape(c: byte, tail: seq<byte>)
    requires !(48 <= c <= 55)
    ensures First([BACKSLASH, c] + tail)
            == Some(Piece(if c == 110 then 10 else if c == 116 then 9 else if c == 114 then 13 else c, 2))
  {
    assert ([BACKSLASH, c] + tail)[1] == c;
  }

  /** An escaped character, with anything after it, is that character. */
  lemma EscapeBack(c: byte, tail: seq<byte>)
    ensures First(Escape(c) + tail) == Some(Piece(c, |Escape(c)|))
    ensures (Escape(c) + tail)[|Escape(c)|..] == tail
  {
    hide First, OctalByte, Escape;
    EscapeForm(c);
    if |Escape(c)| == 4 {
      FirstOctal(Escape(c)[1..], tail);
      assert [BACKSLASH] + Escape(c)[1..] == Escape(c);
    } else {
      FirstShort(c, tail);
    }
  }

  /** A longer escape is a backslash with the three octal digits of the character. */
  lemma EscapeForm(c: byte)
    ensures
      var e := Escape(c);
      |e| <= 2 || (|e| == 4 && e[0] == BACKSLASH && (forall i :: 1 <= i < 4 ==> Octal(e[i])) && OctalByte(e[1..]) == c)
  {
    assert c == c / 64 * 64 + c / 8 % 8 * 8 + c % 8;
  }

  lemma FirstShort(c: byte, tail: seq<byte>)
    requires |Escape(c)| <= 2
    ensures First(Escape(c) + tail) == Some(Piece(c, |Escape(c)|))
  {
    var e := Escape(c);
    assert (e + tail)[0] == e[0] && (|e| == 2 ==> (e + tail)[1] == e[1]);
  }

  /** Unescaping what was escaped gives the string back. */
  lemma {:induction false} ResolveBack(z: seq<byte>)
    ensures Resolve(Escaped(z)) == Some(z)
  {
    if z != [] {
      EscapeBack(z[0], Escaped(z[1..]));
      ResolveBack(z[1..]);
      assert [z[0]] + z[1..] == z;
    }
  }

  // ---- A backslash that escapes nothing

  /** The number of backslashes at the end of a string. */
  function TrailingBackslashes(s: seq<byte>): nat {
    if s != [] && s[|s|-1] == BACKSLASH then 1 + TrailingBackslashes(s[..|s|-1]) else 0
  }

  lemma {:induction false} TrailingAfterOther(a: seq<byte>, b: seq<byte>)
    requires a != [] && a[|a|-1] != BACKSLASH
    ensures TrailingBackslashes(a + b) == TrailingBackslashes(b)
    decreases |b|
  {
    if b == [] {
      assert a + b == a;
    } else {
      assert (a + b)[..|a + b|-1] == a + b[..|b|-1];
      TrailingAfterOther(a, b[..|b|-1]);
    }
  }

  lemma {:induction false} TrailingAfterPair(b: seq<byte>)
    ensures TrailingBackslashes([BACKSLASH, BACKSLASH] + b) % 2 == TrailingBackslashes(b) % 2
    decreases |b|
  {
    var a := [BACKSLASH, BACKSLASH];
    if b == [] {
      assert a + b == a && a[..1] == [BACKSLASH] && [BACKSLASH][..0] == [];
      assert TrailingBackslashes([BACKSLASH]) == 1 + TrailingBackslashes([]);
      assert TrailingBackslashes(a) == 1 + TrailingBackslashes(a[..1]);
    } else {
      assert (a + b)[..|a + b|-1] == a + b[..|b|-1];
      TrailingAfterPair(b[..|b|-1]);
    }
  }

  /** The first character takes an even number of trailing backslashes with it. */
  lemma TrailingAfterFirst(s: seq<byte>)
    requires s != [] && First(s).Some?
    ensures TrailingBackslashes(s) % 2 == TrailingBackslashes(s[First(s).value.n..]) % 2
  {
    var n := First(s).value.n;
    assert s == s[..n] + s[n..];
    hide TrailingBackslashes;
    if s[0] == BACKSLASH && s[1] == BACKSLASH {
      assert s[..n] == [BACKSLASH, BACKSLASH];
      TrailingAfterPair(s[n..]);
    } else {
      TrailingAfterOther(s[..n], s[n..]);
    }
  }

  /** A string has a backslash that escapes nothing if and only if it ends in an odd number of backslashes. */
  lemma {:induction false} ResolveExact(s: seq<byte>)
    ensures Resolve(s).None? <==> TrailingBackslashes(s) % 2 == 1
    decreases |s|
  {
    if s != [] {
      match First(s)
      case None =>
        assert s == [BACKSLASH] && s[..0] == [];
      case Some(p) =>
        TrailingAfterFirst(s);
        ResolveExact(s[p.n..]);
    }
  }

  // ---- The tokenizer.

  function SkipSpaces(s: seq<byte>): (t: seq<byte>)
    ensures |t| <= |s|
    ensures t != [] ==> !IsSpace(t[0])
    ensures CString(s) ==> CString(t)
  {
    if s != [] && IsSpace(s[0]) then SkipSpaces(s[1..]) else s
  }

  /** Where the text after an opening quote ends: at an unescaped closing quote, or at the end of the line. */
  function QuoteEnd(s: seq<byte>, delim: byte): (n: nat)
    ensures n <= |s| && (n < |s| ==> s[n] == delim)
    decreases |s|
  {
    if s == [] || s[0] == delim then 0
    else if s[0] == BACKSLASH && delim == DQUOTE && |s| > 1 then 2 + QuoteEnd(s[2..], delim)
    else 1 + QuoteEnd(s[1..], delim)
  }

  function BareEnd(s: seq<byte>): (n: nat)
    ensures n <= |s| && (n < |s| ==> IsSpace(s[n]))
    decreases |s|
  {
    if s == [] || IsSpace(s[0]) then 0 else 1 + BareEnd(s[1..])
  }

  /** The text of the first argument: where it starts and how long it is. */
  function Raw(s: seq<byte>): (r: (nat, nat))
    requires s != []
    ensures r.0 + r.1 <= |s|
  {
    if s[0] == SQUOTE || s[0] == DQUOTE then (1, QuoteEnd(s[1..], s[0])) else (0, BareEnd(s))
  }

  function Argument(s: seq<byte>): Option<seq<byte>>
    requires s != []
  {
    var (k, n) := Raw(s);
    if s[0] == SQUOTE then Some(s[k..k+n]) else Resolve(s[k..k+n])
  }

  /** What is left of `s` after its first `n` bytes and the byte after them. */
  function After(s: seq<byte>, n: nat): (t: seq<byte>)
    requires n <= |s|
    ensures |t| <= |s| && (s != [] ==> |t| < |s|)
    ensures CString(s) ==> CString(t)
  {
    if n < |s| then s[n+1..] else []
  }

  /** The line after the first argument and the character that ended it. */
  function AfterArgument(s: seq<byte>): (t: seq<byte>)
    requires s != []
    ensures |t| < |s| && (CString(s) ==> CString(t))
  {
    var (k, n) := Raw(s);
    After(s, k + n)
  }

  /** The arguments of a line; `None` when one of them ends in a backslash that escapes nothing. */
  function Args(s: seq<byte>, max: nat): (r: Option<seq<seq<byte>>>)
    ensures r.Some? ==> |r.value| <= max
    decreases max
  {
    var t := SkipSpaces(s);
    if t == [] || max == 0 then Some([])
    else
      match (Argument(t), Args(AfterArgument(t), max - 1))
      case (Some(a), Some(more)) => Some([a] + more)
      case _ => None
  }

  lemma EndAfterPlain(c: byte, more: seq<byte>)
    requires c != DQUOTE && c != BACKSLASH
    ensures QuoteEnd([c] + more, DQUOTE) == 1 + QuoteEnd(more, DQUOTE)
  {
    assert ([c] + more)[1..] == more;
  }

  lemma EndAfterPair(c: byte, more: seq<byte>)
    ensures QuoteEnd([BACKSLASH, c] + more, DQUOTE) == 2 + QuoteEnd(more, DQUOTE)
  {
    assert ([BACKSLASH, c] + more)[2..] == more;
  }

  lemma EndAfterEscape(c: byte, more: seq<byte>)
    ensures QuoteEnd(Escape(c) + more, DQUOTE) == |Escape(c)| + QuoteEnd(more, DQUOTE)
  {
    hide QuoteEnd;
    var e := Escape(c);
    if |e| == 1 {
      EndAfterPlain(c, more);
    } else if |e| == 2 {
      EndAfterPair(e[1], more);
    } else {
      EndAfterPlain(e[3], more);
      EndAfterPlain(e[2], [e[3]] + more);
      EndAfterPair(e[1], [e[2]] + ([e[3]] + more));
      assert e + more == [BACKSLASH, e[1]] + ([e[2]] + ([e[3]] + more));
    }
  }

  /** The closing quote of printed text is found, never one inside it. */
  lemma {:induction false} QuoteEndBack(z: seq<byte>, tail: seq<byte>)
    ensures QuoteEnd(Escaped(z) + [DQUOTE] + tail, DQUOTE) == |Escaped(z)|
  {
    hide Escape;
    if z != [] {
      var more := Escaped(z[1..]) + [DQUOTE] + tail;
      assert Escaped(z) + [DQUOTE] + tail == Escape(z[0]) + more;
      EndAfterEscape(z[0], more);
      QuoteEndBack(z[1..], tail);
    }
  }

  lemma {:induction false} SpacesSkipped(ws: seq<byte>, s: seq<byte>)
    requires Blank(ws)
    requires s != [] && !IsSpace(s[0])
    ensures SkipSpaces(ws + s) == s
  {
    if ws == [] {
      assert ws + s == s;
    } else {
      assert (ws + s)[1..] == ws[1..] + s;
      SpacesSkipped(ws[1..], s);
    }
  }

  lemma QuotedFirst(z: seq<byte>, tail: seq<byte>)
    ensures var s := Quoted(z) + tail; Argument(s) == Some(z) && AfterArgument(s) == tail
  {
    hide Escaped, Resolve, QuoteEnd;
    var s := Quoted(z) + tail;
    var n := |Escaped(z)|;
    assert s[1..] == Escaped(z) + [DQUOTE] + tail;
    QuoteEndBack(z, tail);
    assert Raw(s) == (1, n);
    assert s[1..1+n] == Escaped(z);
    assert s[1+n+1..] == tail;
    ResolveBack(z);
  }

  /** Printed text in a line, after any white space, is one argument with the value printed. */
  lemma QuotedArgument(ws: seq<byte>, z: seq<byte>, tail: seq<byte>, max: nat)
    requires Blank(ws)
    requires max > 0
    ensures
      var rest := Args(tail, max - 1);
      Args(ws + Quoted(z) + tail, max) == if rest.Some? then Some([z] + rest.value) else None
  {
    hide Escaped, SkipSpaces, Argument, AfterArgument;
    var s := Quoted(z) + tail;
    assert ws + Quoted(z) + tail == ws + s;
    SpacesSkipped(ws, s);
    QuotedFirst(z, tail);
  }

  /** Text printed for each string, each after white space of any length. */
  function Line(items: seq<(seq<byte>, seq<byte>)>): seq<byte> {
    if items == [] then [] else items[0].0 + Quoted(items[0].1) + Line(items[1..])
  }

  function Values(items: seq<(seq<byte>, seq<byte>)>): seq<seq<byte>> {
    if items == [] then [] else [items[0].1] + Values(items[1..])
  }

  lemma NoArgs(max: nat)
    ensures Args([], max) == Some([])
  {
  }

  /** A line of up to 50 printed strings has exactly those strings as its arguments. */
  lemma {:induction false} LineBack(items: seq<(seq<byte>, seq<byte>)>, max: nat)
    requires forall i :: 0 <= i < |items| ==> Blank(items[i].0)
    requires |items| <= max
    ensures Args(Line(items), max) == Some(Values(items))
  {
    hide Quoted, Blank, Args;
    if items == [] {
      NoArgs(max);
    } else {
      QuotedArgument(items[0].0, items[0].1, Line(items[1..]), max);
      LineBack(items[1..], max - 1);
    }
  }

  /** An argument without quotes: not empty, without white space or an opening quote. */
  predicate Bare(w: seq<byte>) {
    w != [] && w[0] != SQUOTE && w[0] != DQUOTE && forall k :: 0 <= k < |w| ==> !IsSpace(w[k])
  }

  /** A command name. */
  predicate Word(w: seq<byte>) {
    Bare(w) && forall k :: 0 <= k < |w| ==> w[k] != BACKSLASH
  }

  lemma {:induction false} PlainResolves(w: seq<byte>)
    requires forall k :: 0 <= k < |w| ==> w[k] != BACKSLASH
    ensures Resolve(w) == Some(w)
  {
    if w != [] {
      PlainResolves(w[1..]);
      assert [w[0]] + w[1..] == w;
    }
  }

  lemma {:induction false} BareEndBack(w: seq<byte>, tail: seq<byte>)
    requires forall k :: 0 <= k < |w| ==> !IsSpace(w[k])
    requires tail == [] || IsSpace(tail[0])
    ensures BareEnd(w + tail) == |w|
  {
    if w == [] {
      assert w + tail == tail;
    } else {
      assert (w + tail)[1..] == w[1..] + tail;
      BareEndBack(w[1..], tail);
    }
  }

  /** A command followed by printed strings: its arguments are its name and exactly those strings. */
  lemma CommandBack(w: seq<byte>, items: seq<(seq<byte>, seq<byte>)>, max: nat)
    requires Word(w) && |items| < max
    requires forall i :: 0 <= i < |items| ==> Blank(items[i].0)
    requires items != [] ==> items[0].0 != []
    ensures Args(w + Line(items), max) == Some([w] + Values(items))
  {
    hide Quoted, Resolve, Args;
    var tail := Line(items);
    var s := w + tail;
    assert s[0] == w[0] && SkipSpaces(s) == s;
    BareEndBack(w, tail);
    PlainResolves(w);
    assert s[0..0+|w|] == w;
    if items == [] {
      NoArgs(max - 1);
    } else {
      var (ws, z) := items[0];
      var items' := [(ws[1..], z)] + items[1..];
      assert s[|w|+1..] == ws[1..] + Quoted(z) + Line(items[1..]);
      assert Line(items') == s[|w|+1..] && Values(items') == Values(items) by {
        assert items'[1..] == items[1..];
      }
      LineBack(items', max - 1);
    }
    ArgsIs(s, max);
  }

  lemma ArgsIs(s: seq<byte>, max: nat)
    requires s != [] && SkipSpaces(s) == s && max > 0
    requires Argument(s).Some? && Args(AfterArgument(s), max - 1).Some?
    ensures Args(s, max) == Some([Argument(s).value] + Args(AfterArgument(s), max - 1).value)
  {
  }

  /** A byte between two words makes two arguments of them if and only if it is a space or one of the codes 9 to 13. */
  lemma WordsApart(v: seq<byte>, b: byte, w: seq<byte>, max: nat)
    requires Word(v) && Word(w) && max > 1
    ensures Args(v + [b] + w, max) == Some([v, w]) <==> b == 32 || 9 <= b <= 13
  {
    hide Resolve, Args;
    var s := v + [b] + w;
    assert s[0] == v[0] && SkipSpaces(s) == s;
    NoArgs(max - 1);
    if b == 32 || 9 <= b <= 13 {
      var tail := [b] + w;
      assert s == v + tail;
      BareEndBack(v, tail);
      PlainResolves(v);
      assert s[0..0+|v|] == v && s[|v|+1..] == w && w + Line([]) == w;
      CommandBack(w, [], max - 1);
      ArgsIs(s, max);
      assert [v] + ([w] + Values([])) == [v, w];
    } else {
      assert s + [] == s;
      BareEndBack(s, []);
      assert AfterArgument(s) == [];
      OneArgument(s, max);
    }
  }

  lemma OneArgument(s: seq<byte>, max: nat)
    requires s != [] && SkipSpaces(s) == s && max > 0 && AfterArgument(s) == []
    ensures Args(s, max).Some? ==> |Args(s, max).value| == 1
  {
    hide Argument, AfterArgument;
    NoArgs(max - 1);
  }

  lemma {:induction false} RawQuoteEnd(w: seq<byte>, tail: seq<byte>)
    requires SQUOTE !in w
    ensures QuoteEnd(w + [SQUOTE] + tail, SQUOTE) == |w|
  {
    if w != [] {
      assert (w + [SQUOTE] + tail)[1..] == w[1..] + [SQUOTE] + tail;
      RawQuoteEnd(w[1..], tail);
    }
  }

  /** Text in single quotes is one argument as it stands, backslashes and double quotes included. */
  lemma SingleQuoted(w: seq<byte>, tail: seq<byte>, max: nat)
    requires SQUOTE !in w && max > 0
    ensures
      var rest := Args(tail, max - 1);
      Args([SQUOTE] + w + [SQUOTE] + tail, max) == if rest.Some? then Some([w] + rest.value) else None
  {
    hide Resolve;
    var s := [SQUOTE] + w + [SQUOTE] + tail;
    assert s[1..] == w + [SQUOTE] + tail;
    RawQuoteEnd(w, tail);
    assert s[1..1+|w|] == w && s[1+|w|+1..] == tail;
  }

  /** Some argument, not in single quotes, ends in an odd number of backslashes. */
  predicate Dangling(s: seq<byte>, max: nat)
    decreases max
  {
    var t := SkipSpaces(s);
    t != [] && max > 0 &&
    ((t[0] != SQUOTE && var (k, n) := Raw(t); TrailingBackslashes(t[k..k+n]) % 2 == 1)
     || Dangling(AfterArgument(t), max - 1))
  }

  /** Every argument of a line has a value if and only if none has a backslash that escapes nothing. */
  lemma {:induction false} ArgsExact(s: seq<byte>, max: nat)
    ensures Args(s, max).None? <==> Dangling(s, max)
    decreases max
  {
    hide Resolve, Raw, TrailingBackslashes, SkipSpaces, AfterArgument;
    var t := SkipSpaces(s);
    if t != [] && max > 0 {
      var (k, n) := Raw(t);
      ResolveExact(t[k..k+n]);
      ArgsExact(AfterArgument(t), max - 1);
    }
  }
}
