/** UCS-4, UTF-8 (up to six bytes) and UTF-16 conversions. */
module Utf {
  import opened Types

  type uint16 = u: int | 0 <= u < 0x1_0000

  /** `ucs4_to_utf8`: shifts and masks written as division and remainder. */
  function Ucs4ToUtf8(x: nat): (r: Option<seq<byte>>)
    ensures r.Some? <==> x < 0x8000_0000
    ensures r.Some? ==> 1 <= |r.value| <= 6
  {
    if x < 0x80 then Some([x])
    else if x < 0x800 then Some([0xC0 + x / 0x40, 0x80 + x % 0x40])
    else if x < 0x1_0000 then Some([0xE0 + x / 0x1000, 0x80 + x / 0x40 % 0x40, 0x80 + x % 0x40])
    else if x < 0x20_0000 then
      Some([0xF0 + x / 0x4_0000, 0x80 + x / 0x1000 % 0x40, 0x80 + x / 0x40 % 0x40, 0x80 + x % 0x40])
    else if x < 0x400_0000 then
      Some([0xF8 + x / 0x100_0000, 0x80 + x / 0x4_0000 % 0x40, 0x80 + x / 0x1000 % 0x40, 0x80 + x / 0x40 % 0x40,
            0x80 + x % 0x40])
    else if x < 0x8000_0000 then
      Some([0xFC + x / 0x4000_0000, 0x80 + x / 0x100_0000 % 0x40, 0x80 + x / 0x4_0000 % 0x40,
            0x80 + x / 0x1000 % 0x40, 0x80 + x / 0x40 % 0x40, 0x80 + x % 0x40])
    else None
  }

  /** A byte of the input, or the terminating zero after it. */
  function At(u: seq<byte>, i: nat): byte {
    if i < |u| then u[i] else 0
  }

  /** `(b & 0xC0) == 0x80` */
  predicate Continues(b: byte) {
    0x80 <= b < 0xC0
  }

  datatype Decoded = Decoded(ucs4: nat, bytesRead: nat)

  /** `utf8_to_ucs4`; for five and six byte sequences the reported length is one short. */
  function Utf8ToUcs4(u: seq<byte>): Option<Decoded> {
    var b0, b1, b2, b3, b4, b5 := At(u, 0), At(u, 1), At(u, 2), At(u, 3), At(u, 4), At(u, 5);
    if b0 == 0 || Continues(b0) then None
    else if b0 < 0xC0 then Some(Decoded(b0, 1))
    else if !Continues(b1) then None
    else if b0 < 0xE0 then Some(Decoded((b0 - 0xC0) * 0x40 + (b1 - 0x80), 2))
    else if !Continues(b2) then None
    else if b0 < 0xF0 then Some(Decoded((b0 - 0xE0) * 0x1000 + (b1 - 0x80) * 0x40 + (b2 - 0x80), 3))
    else if !Continues(b3) then None
    else if b0 < 0xF8 then
      Some(Decoded((b0 - 0xF0) * 0x4_0000 + (b1 - 0x80) * 0x1000 + (b2 - 0x80) * 0x40 + (b3 - 0x80), 4))
    else if !Continues(b4) then None
    else if b0 < 0xFC then
      Some(Decoded((b0 - 0xF8) * 0x100_0000 + (b1 - 0x80) * 0x4_0000 + (b2 - 0x80) * 0x1000 + (b3 - 0x80) * 0x40
                   + (b4 - 0x80), 4))
    else if !Continues(b5) then None
    else if b0 < 0xFE then
      Some(Decoded((b0 - 0xFC) * 0x4000_0000 + (b1 - 0x80) * 0x100_0000 + (b2 - 0x80) * 0x4_0000
                   + (b3 - 0x80) * 0x1000 + (b4 - 0x80) * 0x40 + (b5 - 0x80), 5))
    else None
  }

  /** `utf8_size`; zero marks an error. */
  function Utf8Size(first: byte): nat {
    if first < 0x80 then 1
    else if first < 0xC0 then 0
    else if first < 0xE0 then 2
    else if first < 0xF0 then 3
    else if first < 0xF8 then 4
    else if first < 0xFC then 5
    else if first < 0xFE then 6
    else 0
  }

  function Encode(x: nat): (e: seq<byte>)
    requires x < 0x8000_0000
    ensures 1 <= |e| <= 6
  {
    Ucs4ToUtf8(x).value
  }

  /** `utf8_size` of the first byte is the number of bytes written. */
  lemma SizeOfEncoding(x: nat)
    requires x < 0x8000_0000
    ensures Utf8Size(Encode(x)[0]) == |Encode(x)|
  {
  }

  /** One base-64 digit at a time. */
  lemma Digits(x: nat)
    ensures x == x / 0x40 * 0x40 + x % 0x40
    ensures x / 0x40 == x / 0x1000 * 0x40 + x / 0x40 % 0x40
    ensures x / 0x1000 == x / 0x4_0000 * 0x40 + x / 0x1000 % 0x40
    ensures x / 0x4_0000 == x / 0x100_0000 * 0x40 + x / 0x4_0000 % 0x40
    ensures x / 0x100_0000 == x / 0x4000_0000 * 0x40 + x / 0x100_0000 % 0x40
  {
    DigitAt(x, 0x40);
    DigitAt(x, 0x1000);
    DigitAt(x, 0x4_0000);
    DigitAt(x, 0x100_0000);
  }

  lemma DigitAt(x: nat, b: nat)
    requires b > 0
    ensures x / b == x / (b * 0x40) * 0x40 + x / b % 0x40
  {
    var y := x / b;
    var q, d, r := y / 0x40, y % 0x40, x % b;
    assert x == y * b + r;
    assert y == q * 0x40 + d;
    Quotient(x, b * 0x40, q, d * b + r) by {
      assert y * b == (q * 0x40 + d) * b == q * (b * 0x40) + d * b;
      Within(d, b, r);
    }
  }

  lemma Within(d: nat, b: nat, r: nat)
    requires d < 0x40 && r < b
    ensures d * b + r < b * 0x40
  {
    assert d * b <= 0x3F * b;
  }

  lemma Quotient(x: nat, c: nat, q: nat, r: nat)
    requires x == q * c + r && r < c
    ensures x / c == q
  {
    var p, s := x / c, x % c;
    assert x == p * c + s;
    OneMoreTime(p, q, c);
    OneMoreTime(q, p, c);
  }

  lemma OneMoreTime(p: nat, q: nat, c: nat)
    ensures p < q ==> q * c >= p * c + c
  {
    if p < q {
      var k: nat := q - p - 1;
      assert q * c == (p + 1 + k) * c == p * c + c + k * c;
      assert k * c >= 0;
    }
  }

  /** Decoding inverts encoding, whatever follows. */
  lemma DecodeEncode(x: nat, rest: seq<byte>)
    requires 0 < x < 0x8000_0000
    ensures Utf8ToUcs4(Encode(x) + rest).Some? && Utf8ToUcs4(Encode(x) + rest).value.ucs4 == x
  {
    var e := Encode(x);
    assert forall i :: 0 <= i < |e| ==> At(e + rest, i) == e[i];
    if x < 0x1_0000 {
      Digits(x);
    } else if x < 0x20_0000 {
      DecodeEncode4(x, e + rest);
    } else if x < 0x400_0000 {
      DecodeEncode5(x, e + rest);
    } else {
      DecodeEncode6(x, e + rest);
    }
  }

  lemma DecodeEncode4(x: nat, u: seq<byte>)
    requires 0x1_0000 <= x < 0x20_0000
    requires At(u, 0) == 0xF0 + x / 0x4_0000 && At(u, 1) == 0x80 + x / 0x1000 % 0x40
    requires At(u, 2) == 0x80 + x / 0x40 % 0x40 && At(u, 3) == 0x80 + x % 0x40
    ensures Utf8ToUcs4(u) == Some(Decoded(x, 4))
  {
    hide At;
    Digits(x);
  }

  lemma DecodeEncode5(x: nat, u: seq<byte>)
    requires 0x20_0000 <= x < 0x400_0000
    requires At(u, 0) == 0xF8 + x / 0x100_0000 && At(u, 1) == 0x80 + x / 0x4_0000 % 0x40
    requires At(u, 2) == 0x80 + x / 0x1000 % 0x40 && At(u, 3) == 0x80 + x / 0x40 % 0x40 && At(u, 4) == 0x80 + x % 0x40
    ensures Utf8ToUcs4(u) == Some(Decoded(x, 4))
  {
    hide At;
    Digits(x);
  }

  lemma DecodeEncode6(x: nat, u: seq<byte>)
    requires 0x400_0000 <= x < 0x8000_0000
    requires At(u, 0) == 0xFC + x / 0x4000_0000 && At(u, 1) == 0x80 + x / 0x100_0000 % 0x40
    requires At(u, 2) == 0x80 + x / 0x4_0000 % 0x40 && At(u, 3) == 0x80 + x / 0x1000 % 0x40
    requires At(u, 4) == 0x80 + x / 0x40 % 0x40 && At(u, 5) == 0x80 + x % 0x40
    ensures Utf8ToUcs4(u) == Some(Decoded(x, 5))
  {
    hide At;
    Digits(x);
  }

  /** Zero is the one value that does not come back. */
  lemma ZeroDoesNotDecode(rest: seq<byte>)
    ensures Encode(0) == [0] && Utf8ToUcs4(Encode(0) + rest).None?
  {
  }

  /**
   * What decodes is a symbol of `utf8_size` bytes; it is at least as long as the encoding of its value, and equal to
   * it exactly when it has the same length.
   */
  lemma DecodedSymbol(u: seq<byte>)
    requires u != [] && Utf8ToUcs4(u).Some?
    ensures
      var n, x := Utf8Size(u[0]), Utf8ToUcs4(u).value.ucs4;
      && 1 <= n <= |u| && x < 0x8000_0000
      && |Encode(x)| <= n
      && (|Encode(x)| == n <==> Encode(x) == u[..n])
  {
    var n, x := Utf8Size(u[0]), Utf8ToUcs4(u).value.ucs4;
    forall i | 1 <= i < n
      ensures Continues(At(u, i)) && i < |u|
    {
    }
    if |Encode(x)| == n {
      SymbolBytes(u, n);
    }
  }

  lemma SymbolBytesShort(u: seq<byte>, n: nat)
    requires u != [] && Utf8ToUcs4(u).Some? && n == Utf8Size(u[0]) <= |u| && n <= 3
    requires |Encode(Utf8ToUcs4(u).value.ucs4)| == n
    ensures Encode(Utf8ToUcs4(u).value.ucs4) == u[..n]
  {
    if n == 3 {
      Split(u[0] as int - 0xE0, u[1] as int - 0x80, u[2] as int - 0x80);
      assert u[..3] == [u[0], u[1], u[2]];
    } else if n == 2 {
      assert u[..2] == [u[0], u[1]];
    } else {
      assert u[..1] == [u[0]];
    }
  }

  lemma SymbolBytes(u: seq<byte>, n: nat)
    requires u != [] && Utf8ToUcs4(u).Some? && n == Utf8Size(u[0]) <= |u|
    requires Utf8ToUcs4(u).value.ucs4 < 0x8000_0000 && |Encode(Utf8ToUcs4(u).value.ucs4)| == n
    ensures Encode(Utf8ToUcs4(u).value.ucs4) == u[..n]
  {
    if n <= 3 {
      SymbolBytesShort(u, n);
    } else {
      var b, c, d := u[1] as int - 0x80, u[2] as int - 0x80, u[3] as int - 0x80;
      if n == 4 {
        SymbolBytes4(u[0] as int - 0xF0, b, c, d);
        assert u[..4] == [u[0], u[1], u[2], u[3]];
      } else if n == 5 {
        SymbolBytes5(u[0] as int - 0xF8, b, c, d, u[4] as int - 0x80);
        assert u[..5] == [u[0], u[1], u[2], u[3], u[4]];
      } else {
        SymbolBytes6(u[0] as int - 0xFC, b, c, d, u[4] as int - 0x80, u[5] as int - 0x80);
        assert u[..6] == [u[0], u[1], u[2], u[3], u[4], u[5]];
      }
    }
  }

  /** Two digits taken off a number. */
  lemma Split(a: nat, b: nat, c: nat)
    requires b < 0x40 && c < 0x40
    ensures var x := a * 0x1000 + b * 0x40 + c;
            x % 0x40 == c && x / 0x40 == a * 0x40 + b && x / 0x40 % 0x40 == b && x / 0x1000 == a
  {
  }

  lemma SymbolBytes4(a: nat, b: nat, c: nat, d: nat)
    requires a < 8 && b < 0x40 && c < 0x40 && d < 0x40
    ensures var x := a * 0x4_0000 + b * 0x1000 + c * 0x40 + d;
            x >= 0x1_0000 ==> Encode(x) == [0xF0 + a, 0x80 + b, 0x80 + c, 0x80 + d]
  {
    var x := a * 0x4_0000 + b * 0x1000 + c * 0x40 + d;
    Split(a * 0x40 + b, c, d);
    Split(0, a, b);
    assert x / 0x4_0000 == x / 0x1000 / 0x40;
  }

  lemma SymbolBytes5(a: nat, b: nat, c: nat, d: nat, e: nat)
    requires a < 4 && b < 0x40 && c < 0x40 && d < 0x40 && e < 0x40
    ensures var x := a * 0x100_0000 + b * 0x4_0000 + c * 0x1000 + d * 0x40 + e;
            x >= 0x20_0000 ==> Encode(x) == [0xF8 + a, 0x80 + b, 0x80 + c, 0x80 + d, 0x80 + e]
  {
    var x := a * 0x100_0000 + b * 0x4_0000 + c * 0x1000 + d * 0x40 + e;
    Split(a * 0x1000 + b * 0x40 + c, d, e);
    Split(a, b, c);
    assert x / 0x4_0000 == x / 0x1000 / 0x40 && x / 0x100_0000 == x / 0x1000 / 0x1000;
  }

  lemma SymbolBytes6(a: nat, b: nat, c: nat, d: nat, e: nat, f: nat)
    requires a < 2 && b < 0x40 && c < 0x40 && d < 0x40 && e < 0x40 && f < 0x40
    ensures var x := a * 0x4000_0000 + b * 0x100_0000 + c * 0x4_0000 + d * 0x1000 + e * 0x40 + f;
            x >= 0x400_0000 ==> Encode(x) == [0xFC + a, 0x80 + b, 0x80 + c, 0x80 + d, 0x80 + e, 0x80 + f]
  {
    var x := a * 0x4000_0000 + b * 0x100_0000 + c * 0x4_0000 + d * 0x1000 + e * 0x40 + f;
    Split(a * 0x4_0000 + b * 0x1000 + c * 0x40 + d, e, f);
    Split(a * 0x40 + b, c, d);
    Split(0, a, b);
    assert x / 0x4_0000 == x / 0x1000 / 0x40 && x / 0x100_0000 == x / 0x1000 / 0x1000;
    assert x / 0x4000_0000 == x / 0x1000 / 0x1000 / 0x40;
  }

  /** No encoding is a prefix of another. */
  lemma PrefixFree(x: nat, y: nat)
    requires 0 < x < 0x8000_0000 && 0 < y < 0x8000_0000 && Encode(x) <= Encode(y)
    ensures x == y
  {
    SizeOfEncoding(x);
    SizeOfEncoding(y);
    DecodeEncode(x, []);
    DecodeEncode(y, []);
    assert Encode(x) + [] == Encode(x) && Encode(y) + [] == Encode(y);
    assert Encode(y)[0] == Encode(x)[0];
  }

  predicate BytesLess(a: seq<byte>, b: seq<byte>) {
    exists p :: 0 <= p < |a| && p < |b| && a[..p] == b[..p] && a[p] < b[p]
  }

  /** `n` continuation bytes: the low base-64 digits of `x`. */
  function Tail(x: nat, n: nat): (t: seq<byte>)
    ensures |t| == n
  {
    if n == 0 then [] else Tail(x / 0x40, n - 1) + [0x80 + x % 0x40]
  }

  /** `x` without its `n` low base-64 digits. */
  function Top(x: nat, n: nat): nat {
    if n == 0 then x else Top(x / 0x40, n - 1)
  }

  lemma {:induction false} TailOrder(x: nat, y: nat, n: nat)
    requires x < y
    ensures Top(x, n) < Top(y, n) || (Top(x, n) == Top(y, n) && BytesLess(Tail(x, n), Tail(y, n)))
  {
    if n > 0 {
      var a, b := Tail(x / 0x40, n - 1), Tail(y / 0x40, n - 1);
      if x / 0x40 < y / 0x40 {
        TailOrder(x / 0x40, y / 0x40, n - 1);
        if BytesLess(a, b) {
          var p :| 0 <= p < |a| && p < |b| && a[..p] == b[..p] && a[p] < b[p];
          assert Tail(x, n)[..p] == a[..p] && Tail(y, n)[..p] == b[..p];
          assert Tail(x, n)[p] < Tail(y, n)[p];
        }
      } else {
        assert Tail(x, n)[..n-1] == a == b == Tail(y, n)[..n-1];
        assert Tail(x, n)[n-1] < Tail(y, n)[n-1];
      }
    }
  }

  function Lead(n: nat): nat
    requires n <= 5
  {
    match n
    case 0 => 0
    case 1 => 0xC0
    case 2 => 0xE0
    case 3 => 0xF0
    case 4 => 0xF8
    case _ => 0xFC
  }

  /** Tails of up to five bytes, digit by digit. */
  lemma TailDigits(x: nat)
    ensures Tail(x, 1) == [0x80 + x % 0x40] && Top(x, 1) == x / 0x40
    ensures Tail(x, 2) == [0x80 + x / 0x40 % 0x40, 0x80 + x % 0x40] && Top(x, 2) == x / 0x1000
  {
    assert x / 0x40 / 0x40 == x / 0x1000;
    TailStep(x, 1);
    TailStep(x / 0x40, 1);
    TailStep(x, 2);
  }

  lemma TailStep(x: nat, n: nat)
    requires n > 0
    ensures Tail(x, n) == Tail(x / 0x40, n - 1) + [0x80 + x % 0x40] && Top(x, n) == Top(x / 0x40, n - 1)
    ensures Tail(x, 0) == [] && Top(x, 0) == x
  {
  }

  lemma TailDigits3(x: nat)
    ensures Tail(x, 3) == [0x80 + x / 0x1000 % 0x40, 0x80 + x / 0x40 % 0x40, 0x80 + x % 0x40]
    ensures Top(x, 3) == x / 0x4_0000
  {
    TailStep(x, 3);
    TailDigits(x / 0x40);
    assert x / 0x40 / 0x40 == x / 0x1000 && x / 0x40 / 0x1000 == x / 0x4_0000;
  }

  lemma TailDigits4(x: nat)
    ensures Tail(x, 4)
            == [0x80 + x / 0x4_0000 % 0x40, 0x80 + x / 0x1000 % 0x40, 0x80 + x / 0x40 % 0x40, 0x80 + x % 0x40]
    ensures Top(x, 4) == x / 0x100_0000
  {
    TailStep(x, 4);
    TailDigits3(x / 0x40);
    assert x / 0x40 / 0x40 == x / 0x1000 && x / 0x40 / 0x1000 == x / 0x4_0000;
    assert x / 0x40 / 0x4_0000 == x / 0x100_0000;
  }

  lemma TailDigits5(x: nat)
    ensures Tail(x, 5) == [0x80 + x / 0x100_0000 % 0x40, 0x80 + x / 0x4_0000 % 0x40, 0x80 + x / 0x1000 % 0x40,
                           0x80 + x / 0x40 % 0x40, 0x80 + x % 0x40]
    ensures Top(x, 5) == x / 0x4000_0000
  {
    TailStep(x, 5);
    TailDigits4(x / 0x40);
    assert x / 0x40 / 0x40 == x / 0x1000 && x / 0x40 / 0x1000 == x / 0x4_0000;
    assert x / 0x40 / 0x4_0000 == x / 0x100_0000 && x / 0x40 / 0x100_0000 == x / 0x4000_0000;
  }

  /** An encoding is a lead byte and the low digits. */
  lemma EncodeTail(x: nat)
    requires x < 0x8000_0000
    ensures
      var n := |Encode(x)| - 1;
      Lead(n) + Top(x, n) < 0x100 && Encode(x) == [Lead(n) + Top(x, n)] + Tail(x, n)
  {
    hide Tail, Top;
    TailStep(x, 1);
    if x < 0x80 {
    } else if x < 0x1_0000 {
      TailDigits(x);
    } else if x < 0x20_0000 {
      TailDigits3(x);
    } else if x < 0x400_0000 {
      TailDigits4(x);
    } else {
      TailDigits5(x);
    }
  }

  /** Encodings are ordered bytewise as the code points are. */
  lemma EncodeOrder(x: nat, y: nat)
    requires x < y < 0x8000_0000
    ensures BytesLess(Encode(x), Encode(y))
  {
    EncodeTail(x);
    EncodeTail(y);
    var a, b := Encode(x), Encode(y);
    if |a| < |b| {
      assert a[..0] == b[..0] && a[0] < b[0];
    } else {
      var n := |a| - 1;
      TailOrder(x, y, n);
      if Top(x, n) < Top(y, n) {
        assert a[..0] == b[..0] && a[0] < b[0];
      } else {
        SameLead(a[0], Tail(x, n), Tail(y, n));
      }
    }
  }

  lemma SameLead(c: byte, s: seq<byte>, t: seq<byte>)
    requires BytesLess(s, t)
    ensures BytesLess([c] + s, [c] + t)
  {
    var p :| 0 <= p < |s| && p < |t| && s[..p] == t[..p] && s[p] < t[p];
    var a, b := [c] + s, [c] + t;
    assert a[..p + 1] == [c] + s[..p] && b[..p + 1] == [c] + t[..p];
    assert a[p + 1] < b[p + 1];
  }

  // UTF-16

  /** `utf16_to_ucs4` on two units, of which the second is read after a high surrogate only. */
  function Utf16ToUcs4(u0: uint16, u1: uint16): Option<nat> {
    if u0 < 0xD800 then Some(u0)
    else if u0 < 0xDC00 then
      if 0xDC00 <= u1 < 0xE000 then Some((u0 - 0xD800) * 0x400 + (u1 - 0xDC00) + 0x1_0000) else None
    else if u0 < 0xFFFE then Some(u0)
    else None
  }

  /** `ucs4_to_utf16`; one unit leaves the second one of the buffer as it was. */
  function Ucs4ToUtf16(x: nat, u1: uint16): Option<(uint16, uint16)> {
    if x <= 0xFFFD then Some((x, u1))
    else if 0x1_0000 <= x <= 0x10_FFFF then Some(((x - 0x1_0000) / 0x400 + 0xD800, (x - 0x1_0000) % 0x400 + 0xDC00))
    else None
  }

  /** With a zeroed buffer, UTF-16 gives back exactly the values that are not high surrogates, 0xFFFE or 0xFFFF. */
  lemma Utf16RoundTrip(x: nat)
    ensures (Ucs4ToUtf16(x, 0).Some? && Utf16ToUcs4(Ucs4ToUtf16(x, 0).value.0, Ucs4ToUtf16(x, 0).value.1) == Some(x))
       <==> x < 0xD800 || 0xDC00 <= x <= 0xFFFD || 0x1_0000 <= x <= 0x10_FFFF
  {
    if 0x1_0000 <= x <= 0x10_FFFF {
      var v := x - 0x1_0000;
      assert v == v / 0x400 * 0x400 + v % 0x400;
    }
  }

  /**
   * A value of 16 bits is its own unit; one beyond them is a high and a low surrogate, and pairs of units are ordered
   * as their values are.
   */
  lemma Utf16Order(x: nat, y: nat, u1: uint16)
    requires x < y && Ucs4ToUtf16(x, u1).Some? && Ucs4ToUtf16(y, u1).Some?
    ensures
      var a, b := Ucs4ToUtf16(x, u1).value, Ucs4ToUtf16(y, u1).value;
      if x < 0x1_0000 then a == (x, u1)
      else
        && 0xD800 <= a.0 < 0xDC00 <= a.1 < 0xE000 && 0xD800 <= b.0 < 0xDC00 <= b.1 < 0xE000
        && (a.0 < b.0 || (a.0 == b.0 && a.1 < b.1))
  {
    if x >= 0x1_0000 {
      var v, w := x - 0x1_0000, y - 0x1_0000;
      assert v == v / 0x400 * 0x400 + v % 0x400 && w == w / 0x400 * 0x400 + w % 0x400;
    }
  }

  /** Every pair of units that decodes is the encoding of its value. */
  lemma Utf16Canonical(u0: uint16, u1: uint16)
    requires Utf16ToUcs4(u0, u1).Some?
    ensures Ucs4ToUtf16(Utf16ToUcs4(u0, u1).value, u1) == Some((u0, u1))
  {
  }
}
