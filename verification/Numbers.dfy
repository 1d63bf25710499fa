/** How a JSON number literal is classified and converted. */
module Numbers {
  import opened Comparators
  import opened KeyOrder

  const TWO63 := 0x8000_0000_0000_0000
  const TWO64 := 0x1_0000_0000_0000_0000
  const INT_64_MAX: string := "9223372036854775807"
  const INT_64_MIN: string := "9223372036854775808"   // without its sign
  const INT_64_LEN := 19
  const UINT64_T_MAX_LEN := 20
  const NUMERIC_BUFFER_SIZE := 1024

  /** The dynamic value made of a literal; a floating value is represented by its literal. */
  datatype Number = Int64(i: int) | UInt64(u: nat) | Double(literal: string)

  predicate IsDigit(c: char) {
    '0' <= c <= '9'
  }

  function Digit(c: char): nat
    requires IsDigit(c)
  {
    c as int - '0' as int
  }

  predicate AllDigits(d: string) {
    forall i :: 0 <= i < |d| ==> IsDigit(d[i])
  }

  function Pow10(n: nat): (p: nat)
    ensures p > 0
  {
    if n == 0 then 1 else 10 * Pow10(n - 1)
  }

  /** The number that a string of digits writes. */
  function DigitsValue(d: string): nat
    requires AllDigits(d)
  {
    if d == [] then 0 else Digit(d[0]) * Pow10(|d| - 1) + DigitsValue(d[1..])
  }

  /** The leading digits of a string: where `strtoll` and `strtoull` stop. */
  function LeadingDigits(s: string): (d: string)
    ensures AllDigits(d) && d <= s && (AllDigits(s) ==> d == s)
  {
    if s != [] && IsDigit(s[0]) then [s[0]] + LeadingDigits(s[1..]) else []
  }

  function Negative(text: string): bool {
    text != [] && text[0] == '-'
  }

  function Unsigned(text: string): string {
    if Negative(text) then text[1..] else text
  }

  /** `strtoll`, which clamps to the 64-bit range. */
  function StrToLL(text: string): int {
    var v: int := DigitsValue(LeadingDigits(Unsigned(text)));
    if Negative(text) then (if v > TWO63 then -TWO63 else -v)
    else if v >= TWO63 then TWO63 - 1 else v
  }

  datatype Parsed = Parsed(value: nat, range: bool, all: bool)

  /** `strtoull`: a negative literal is negated modulo 2^64; too large a value sets ERANGE. */
  function StrToULL(text: string): Parsed {
    var d := LeadingDigits(Unsigned(text));
    var v := DigitsValue(d);
    var all := |d| == |Unsigned(text)|;
    if v >= TWO64 then Parsed(TWO64 - 1, true, all)
    else Parsed(if Negative(text) && v > 0 then TWO64 - v else v, false, all)
  }

  /** `ParseNumber`; `erange` says whether `errno` was already ERANGE, which the code never clears. */
  function ParseNumberOf(text: string, erange: bool): Number {
    var digits := Unsigned(text);
    var boundary := if Negative(text) then INT_64_MIN else INT_64_MAX;
    if '.' in text || |digits| > UINT64_T_MAX_LEN then Double(text)
    else if |digits| < INT_64_LEN || (|digits| == INT_64_LEN && CompareText(digits, boundary) <= 0) then
      Int64(StrToLL(text))
    else
      var r := StrToULL(text);
      if erange || r.range || !r.all then Double(text) else UInt64(r.value)
  }

  /** An integer literal without fraction, exponent or leading zeros. */
  predicate IntegerLiteral(text: string) {
    var d := Unsigned(text);
    d != [] && AllDigits(d) && (d[0] == '0' ==> |d| == 1)
  }

  function LiteralValue(text: string): int
    requires IntegerLiteral(text)
  {
    var v: int := DigitsValue(Unsigned(text));
    if Negative(text) then -v else v
  }

  lemma MulLess(a: nat, b: nat, p: nat)
    requires a < b
    ensures a * p + p <= b * p
  {
    var k := b - a - 1;
    assert b * p == (a + 1 + k) * p == a * p + p + k * p;
    assert k * p >= 0;
  }

  lemma {:induction false} DigitsBound(d: string)
    requires AllDigits(d)
    ensures DigitsValue(d) < Pow10(|d|)
    ensures d != [] && d[0] != '0' ==> Pow10(|d| - 1) <= DigitsValue(d)
  {
    if d != [] {
      DigitsBound(d[1..]);
      var p := Pow10(|d| - 1);
      MulLess(Digit(d[0]), 10, p);
      if d[0] != '0' {
        MulLess(0, Digit(d[0]), p);
      }
    }
  }

  /** On strings of digits of one length, comparison by characters is comparison by value. */
  lemma {:induction false} CompareDigits(a: string, b: string)
    requires AllDigits(a) && AllDigits(b) && |a| == |b|
    ensures CompareText(a, b) <= 0 <==> DigitsValue(a) <= DigitsValue(b)
  {
    if a != [] {
      var p := Pow10(|a| - 1);
      DigitsBound(a[1..]);
      DigitsBound(b[1..]);
      if a[0] < b[0] {
        MulLess(Digit(a[0]), Digit(b[0]), p);
      } else if b[0] < a[0] {
        MulLess(Digit(b[0]), Digit(a[0]), p);
      } else {
        CompareDigits(a[1..], b[1..]);
      }
    }
  }

  lemma {:induction false} Pow10Grows(m: nat, n: nat)
    requires m <= n
    ensures Pow10(m) <= Pow10(n)
    decreases n - m
  {
    if m < n {
      Pow10Grows(m + 1, n);
    }
  }

  lemma MulAdd(a: nat, b: nat, p: nat, q: nat)
    ensures (a * p + b) * q == a * (p * q) + b * q
  {
    assert (a * p + b) * q == a * p * q + b * q;
    assert a * p * q == a * (p * q);
  }

  lemma {:induction false} Pow10Add(m: nat, n: nat)
    ensures Pow10(m + n) == Pow10(m) * Pow10(n)
  {
    if m > 0 {
      Pow10Add(m - 1, n);
      assert 10 * Pow10(m - 1) * Pow10(n) == 10 * (Pow10(m - 1) * Pow10(n));
    }
  }

  lemma {:induction false} ValueConcat(a: string, b: string)
    requires AllDigits(a) && AllDigits(b)
    ensures AllDigits(a + b) && DigitsValue(a + b) == DigitsValue(a) * Pow10(|b|) + DigitsValue(b)
  {
    if a == [] {
      assert a + b == b;
    } else {
      assert (a + b)[1..] == a[1..] + b;
      ValueConcat(a[1..], b);
      Pow10Add(|a| - 1, |b|);
      MulAdd(Digit(a[0]), DigitsValue(a[1..]), Pow10(|a| - 1), Pow10(|b|));
    }
  }

  lemma Triple(a: char, b: char, c: char)
    requires IsDigit(a) && IsDigit(b) && IsDigit(c)
    ensures AllDigits([a, b, c]) && DigitsValue([a, b, c]) == 100 * Digit(a) + 10 * Digit(b) + Digit(c)
    ensures Pow10(3) == 1000
  {
    assert [a, b, c][1..] == [b, c] && [b, c][1..] == [c] && [c][1..] == [];
    assert DigitsValue([c]) == Digit(c);
    assert DigitsValue([b, c]) == 10 * Digit(b) + Digit(c);
  }

  lemma AppendTriple(s: string, a: char, b: char, c: char)
    requires AllDigits(s) && IsDigit(a) && IsDigit(b) && IsDigit(c)
    ensures AllDigits(s + [a, b, c])
    ensures DigitsValue(s + [a, b, c]) == 1000 * DigitsValue(s) + 100 * Digit(a) + 10 * Digit(b) + Digit(c)
  {
    Triple(a, b, c);
    ValueConcat(s, [a, b, c]);
  }

  lemma AppendDigit(s: string, a: char)
    requires AllDigits(s) && IsDigit(a)
    ensures AllDigits(s + [a]) && DigitsValue(s + [a]) == 10 * DigitsValue(s) + Digit(a)
  {
    assert [a][1..] == [];
    ValueConcat(s, [a]);
  }

  const BEYOND: string := "9223372036854775809"

  /** The two boundary strings write the limits of 64 signed bits, and one more lies beyond them. */
  lemma Boundaries()
    ensures AllDigits(INT_64_MAX) && |INT_64_MAX| == INT_64_LEN && DigitsValue(INT_64_MAX) == TWO63 - 1
    ensures AllDigits(INT_64_MIN) && |INT_64_MIN| == INT_64_LEN && DigitsValue(INT_64_MIN) == TWO63
    ensures AllDigits(BEYOND) && DigitsValue(BEYOND) == TWO63 + 1
  {
    hide DigitsValue, AllDigits;
    Triple('9', '2', '2');
    var s1 := ['9', '2', '2'];
    AppendTriple(s1, '3', '3', '7');
    var s2 := s1 + ['3', '3', '7'];
    AppendTriple(s2, '2', '0', '3');
    var s3 := s2 + ['2', '0', '3'];
    AppendTriple(s3, '6', '8', '5');
    var s4 := s3 + ['6', '8', '5'];
    AppendTriple(s4, '4', '7', '7');
    var s5 := s4 + ['4', '7', '7'];
    AppendTriple(s5, '5', '8', '0');
    var s6 := s5 + ['5', '8', '0'];
    AppendDigit(s6, '7');
    AppendDigit(s6, '8');
    AppendDigit(s6, '9');
    assert INT_64_MAX == s6 + ['7'];
    assert INT_64_MIN == s6 + ['8'];
    assert BEYOND == s6 + ['9'];
  }

  lemma Pow10Next(n: nat)
    ensures Pow10(n + 1) == 10 * Pow10(n)
  {
  }

  lemma Powers()
    ensures Pow10(18) == 1_000_000_000_000_000_000
    ensures Pow10(19) == 10_000_000_000_000_000_000
    ensures Pow10(20) == 100_000_000_000_000_000_000
  {
    assert Pow10(6) == 1_000_000;
    hide Pow10;
    Pow10Add(6, 6);
    Pow10Add(12, 6);
    Pow10Next(18);
    Pow10Next(19);
  }

  /**
   * For every integer literal, the length-then-compare test takes the signed branch if and only if the value fits
   * in 64 signed bits, and then the value is exact. Other literals become unsigned while their digits fit in 64 bits
   * (a negative one modulo 2^64), and floating beyond.
   */
  lemma ParseIntegerLiteral(text: string, erange: bool)
    requires IntegerLiteral(text)
    ensures
      var v, n := LiteralValue(text), ParseNumberOf(text, erange);
      && (n.Int64? <==> -TWO63 <= v < TWO63)
      && (n.Int64? ==> n.i == v)
      && (n.UInt64? <==> !erange && (TWO63 <= v < TWO64 || -TWO64 < v < -TWO63))
      && (n.UInt64? ==> n.u == if v < 0 then TWO64 + v else v)
  {
    hide DigitsValue, Pow10, CompareText;
    var d := Unsigned(text);
    var v := DigitsValue(d);
    NoDot(text);
    Boundaries();
    Powers();
    DigitsBound(d);
    if |d| < INT_64_LEN {
      Pow10Grows(|d|, 18);
    } else if |d| == INT_64_LEN {
      CompareDigits(d, if Negative(text) then INT_64_MIN else INT_64_MAX);
    } else if |d| == UINT64_T_MAX_LEN {
    } else {
      Pow10Grows(20, |d| - 1);
    }
  }

  /** The literal -9223372036854775809 becomes the largest signed value, unsigned. */
  lemma NegativeBecomesUnsigned()
    ensures IntegerLiteral("-" + BEYOND) && LiteralValue("-" + BEYOND) == -TWO63 - 1
    ensures ParseNumberOf("-" + BEYOND, false) == UInt64(TWO63 - 1)
  {
    hide DigitsValue, AllDigits;
    Boundaries();
    assert Unsigned("-" + BEYOND) == BEYOND && BEYOND[0] == '9';
    hide ParseNumberOf;
    ParseIntegerLiteral("-" + BEYOND, false);
  }

  lemma NoDot(text: string)
    requires IntegerLiteral(text)
    ensures '.' !in text
  {
    var d := Unsigned(text);
    assert forall i :: 0 <= i < |text| ==> text[i] == '-' || (exists j :: 0 <= j < |d| && text[i] == d[j]) by {
      forall i | 0 <= i < |text|
        ensures text[i] == '-' || exists j :: 0 <= j < |d| && text[i] == d[j]
      {
        if Negative(text) && i > 0 {
          assert text[i] == d[i - 1];
        } else if !Negative(text) {
          assert text[i] == d[i];
        }
      }
    }
  }

  /** A literal with a fraction, with or without an exponent, becomes the floating value of its whole text. */
  lemma FractionIsDouble(whole: string, fraction: string, erange: bool)
    ensures ParseNumberOf(whole + "." + fraction, erange) == Double(whole + "." + fraction)
  {
    var text := whole + "." + fraction;
    assert text[|whole|] == '.';
  }

  // ---- Literals with an exponent and no fraction

  datatype Exponent = Exponent(mark: char, sign: string, digits: string)

  predicate ExponentOk(x: Exponent) {
    && (x.mark == 'e' || x.mark == 'E') && (x.sign == "" || x.sign == "+" || x.sign == "-")
    && x.digits != [] && AllDigits(x.digits)
  }

  function ExponentText(x: Exponent): string {
    [x.mark] + x.sign + x.digits
  }

  /** `v` is the value of the mantissa `m` with the exponent: `m` times or divided by a power of ten. */
  predicate HasExponent(v: int, m: int, x: Exponent)
    requires ExponentOk(x)
  {
    if x.sign == "-" then v * Pow10(DigitsValue(x.digits)) == m else v == m * Pow10(DigitsValue(x.digits))
  }

  lemma {:induction false} LeadingBefore(d: string, rest: string)
    requires AllDigits(d) && rest != [] && !IsDigit(rest[0])
    ensures LeadingDigits(d + rest) == d
  {
    if d == [] {
      assert d + rest == rest;
    } else {
      assert (d + rest)[1..] == d[1..] + rest;
      LeadingBefore(d[1..], rest);
    }
  }

  lemma NoDotInExponent(d: string, x: Exponent)
    requires AllDigits(d) && ExponentOk(x)
    ensures '.' !in d && '.' !in ExponentText(x)
  {
    assert forall c :: c in d ==> IsDigit(c);
    assert forall c :: c in x.digits ==> IsDigit(c);
  }

  function Mantissa(negative: bool, d: string): int
    requires AllDigits(d)
  {
    var v: int := DigitsValue(d);
    if negative then -v else v
  }

  /** A short literal with an exponent and no fraction becomes the integer of its leading digits. */
  lemma ParseExponentLiteral(negative: bool, d: string, x: Exponent, erange: bool)
    requires d != [] && AllDigits(d) && ExponentOk(x) && |d + ExponentText(x)| < INT_64_LEN
    ensures ParseNumberOf((if negative then "-" else "") + (d + ExponentText(x)), erange)
            == Int64(Mantissa(negative, d))
  {
    hide DigitsValue, Pow10, AllDigits;
    var rest := d + ExponentText(x);
    NoDotInExponent(d, x);
    FirstIsDigit(d);
    assert rest[0] == d[0];
    LeadingBefore(d, ExponentText(x));
    DigitsBound(d);
    Pow10Grows(|d|, 18);
    Powers();
    hide ExponentText, ExponentOk, LeadingDigits;
    ShortInteger(negative, rest, erange);
  }

  lemma ShortInteger(negative: bool, rest: string, erange: bool)
    requires rest != [] && rest[0] != '-' && '.' !in rest && |rest| < INT_64_LEN
    requires DigitsValue(LeadingDigits(rest)) < TWO63
    ensures ParseNumberOf((if negative then "-" else "") + rest, erange)
            == Int64(Mantissa(negative, LeadingDigits(rest)))
  {
    hide ParseNumberOf, LeadingDigits, Mantissa, AllDigits;
    var text := (if negative then "-" else "") + rest;
    assert text == if negative then ['-'] + rest else rest;
    assert Unsigned(text) == rest && Negative(text) == negative;
    ShortText(text);
  }

  lemma ShortText(text: string)
    requires '.' !in text && |Unsigned(text)| < INT_64_LEN && DigitsValue(LeadingDigits(Unsigned(text))) < TWO63
    ensures forall erange ::
      ParseNumberOf(text, erange) == Int64(Mantissa(Negative(text), LeadingDigits(Unsigned(text))))
  {
    hide DigitsValue, LeadingDigits, CompareText, StrToULL, Unsigned, Negative;
  }

  /**
   * A long one does so only when it has 19 characters and comes, as text, no later than the limit of its sign;
   * otherwise it becomes the floating value of its text.
   */
  lemma ParseLongExponent(negative: bool, d: string, x: Exponent, erange: bool)
    requires d != [] && AllDigits(d) && ExponentOk(x) && |d + ExponentText(x)| >= INT_64_LEN
    ensures
      var rest := d + ExponentText(x);
      var text := (if negative then "-" else "") + rest;
      ParseNumberOf(text, erange)
      == if |rest| == INT_64_LEN && !TextBefore(if negative then INT_64_MIN else INT_64_MAX, rest) then
           Int64(Mantissa(negative, d))
         else Double(text)
  {
    hide DigitsValue, Pow10, AllDigits;
    var rest := d + ExponentText(x);
    NoDotInExponent(d, x);
    FirstIsDigit(d);
    assert rest[0] == d[0];
    LeadingBefore(d, ExponentText(x));
    DigitsBound(d);
    if |rest| == INT_64_LEN {
      Pow10Grows(|d|, 18);
    }
    Powers();
    CompareTextSign(rest, if negative then INT_64_MIN else INT_64_MAX);
    TextTotal(rest, if negative then INT_64_MIN else INT_64_MAX);
    hide ExponentText, ExponentOk, LeadingDigits, TextBefore;
    LongMixed(negative, rest, erange);
  }

  lemma LongMixed(negative: bool, rest: string, erange: bool)
    requires |rest| >= INT_64_LEN && rest[0] != '-' && '.' !in rest && |LeadingDigits(rest)| < |rest|
    requires |rest| == INT_64_LEN ==> DigitsValue(LeadingDigits(rest)) < TWO63
    ensures
      var text := (if negative then "-" else "") + rest;
      ParseNumberOf(text, erange)
      == if |rest| == INT_64_LEN && CompareText(rest, if negative then INT_64_MIN else INT_64_MAX) <= 0 then
           Int64(Mantissa(negative, LeadingDigits(rest)))
         else Double(text)
  {
    hide ParseNumberOf, LeadingDigits, Mantissa, AllDigits, CompareText;
    var text := (if negative then "-" else "") + rest;
    assert text == if negative then ['-'] + rest else rest;
    assert Unsigned(text) == rest && Negative(text) == negative;
    assert '.' !in text;
    LongText(text, erange);
  }

  lemma LongText(text: string, erange: bool)
    requires '.' !in text && |Unsigned(text)| >= INT_64_LEN && |LeadingDigits(Unsigned(text))| < |Unsigned(text)|
    requires |Unsigned(text)| == INT_64_LEN ==> DigitsValue(LeadingDigits(Unsigned(text))) < TWO63
    ensures
      var digits := Unsigned(text);
      var boundary := if Negative(text) then INT_64_MIN else INT_64_MAX;
      ParseNumberOf(text, erange)
      == if |digits| == INT_64_LEN && CompareText(digits, boundary) <= 0 then
           Int64(Mantissa(Negative(text), LeadingDigits(digits)))
         else Double(text)
  {
    hide DigitsValue, LeadingDigits, CompareText, Unsigned, Negative;
  }

  /** That integer is the literal's own value if and only if the mantissa or the exponent is zero. */
  lemma ExponentExact(negative: bool, d: string, x: Exponent)
    requires AllDigits(d) && ExponentOk(x)
    ensures HasExponent(Mantissa(negative, d), Mantissa(negative, d), x)
            <==> Mantissa(negative, d) == 0 || DigitsValue(x.digits) == 0
  {
    hide DigitsValue, Pow10, Mantissa;
    Pow10Exceeds(DigitsValue(x.digits));
    TimesSame(Mantissa(negative, d), Pow10(DigitsValue(x.digits)));
  }

  lemma FirstIsDigit(d: string)
    requires d != [] && AllDigits(d)
    ensures IsDigit(d[0])
  {
  }

  lemma TimesSame(m: int, p: nat)
    ensures m * p == m <==> m == 0 || p == 1
  {
    if m * p == m && m != 0 {
      assert m * (p - 1) == 0;
    }
  }

  lemma Pow10Exceeds(n: nat)
    ensures Pow10(n) == 1 <==> n == 0
  {
    if n > 0 {
      Pow10Grows(1, n);
      assert Pow10(1) == 10;
    }
  }

  /** The literal 1e5 becomes 1. */
  lemma ExponentLost()
    ensures ParseNumberOf("1e5", false) == Int64(1) && !HasExponent(1, 1, Exponent('e', "", "5"))
  {
    var x := Exponent('e', "", "5");
    assert DigitsValue("5") == 5 && DigitsValue("1") == 1;
    hide ParseNumberOf, HasExponent, DigitsValue;
    ParseExponentLiteral(false, "1", x, false);
    ExponentExact(false, "1", x);
    assert "" + ("1" + ExponentText(x)) == "1e5";
  }

  // ---- Many literals: `errno` goes from one to the next

  /** A literal, and whether `strtod` finds it out of the range of a double. */
  datatype Literal = Literal(text: string, outOfRange: bool)

  /** Whether `errno` is ERANGE after a literal: `strtoull` and `strtod` may set it, and nothing clears it. */
  function ErangeAfter(l: Literal, erange: bool): bool {
    var unsigned := StrToULL(l.text);
    match ParseNumberOf(l.text, erange)
    case Int64(_) => erange
    case UInt64(_) => erange
    case Double(_) => erange || l.outOfRange || (TriesUnsigned(l.text) && unsigned.range)
  }

  /** The literal gets as far as `strtoull`. */
  predicate TriesUnsigned(text: string) {
    var digits := Unsigned(text);
    var boundary := if Negative(text) then INT_64_MIN else INT_64_MAX;
    && '.' !in text && INT_64_LEN <= |digits| <= UINT64_T_MAX_LEN
    && (|digits| == INT_64_LEN ==> CompareText(digits, boundary) > 0)
  }

  function ErangeBefore(literals: seq<Literal>, erange: bool, i: nat): bool
    requires i <= |literals|
  {
    if i == 0 then erange else ErangeAfter(literals[i-1], ErangeBefore(literals, erange, i - 1))
  }

  /** The number that literal `i` of a run becomes. */
  function NumberAt(literals: seq<Literal>, erange: bool, i: nat): Number
    requires i < |literals|
  {
    ParseNumberOf(literals[i].text, ErangeBefore(literals, erange, i))
  }

  /** The literal sets `errno` when it is not set already. */
  predicate Raises(l: Literal) {
    ErangeAfter(l, false)
  }

  /** `errno` is ERANGE before a literal exactly when it was at the start or an earlier literal has raised it. */
  lemma {:induction false} ErangeStays(literals: seq<Literal>, erange: bool, i: nat)
    requires i <= |literals|
    ensures ErangeBefore(literals, erange, i) <==> erange || exists j :: 0 <= j < i && Raises(literals[j])
  {
    hide ErangeAfter, Raises;
    if i > 0 {
      ErangeStays(literals, erange, i - 1);
      RaisedOrNot(literals[i-1], ErangeBefore(literals, erange, i - 1));
    }
  }

  lemma RaisedOrNot(l: Literal, erange: bool)
    ensures ErangeAfter(l, erange) <==> erange || Raises(l)
  {
    hide StrToLL, CompareText;
  }

  /**
   * In a run of literals, an integer literal becomes unsigned if and only if its value calls for it and neither the
   * start nor any earlier literal has left ERANGE in `errno`; otherwise such a literal becomes floating.
   */
  lemma UnsignedInRun(literals: seq<Literal>, erange: bool, i: nat)
    requires i < |literals| && IntegerLiteral(literals[i].text)
    ensures
      var v, n := LiteralValue(literals[i].text), NumberAt(literals, erange, i);
      var unsigned := TWO63 <= v < TWO64 || -TWO64 < v < -TWO63;
      && (n.UInt64? <==> unsigned && !erange && forall j :: 0 <= j < i ==> !Raises(literals[j]))
      && (unsigned && !n.UInt64? ==> n.Double?)
  {
    hide ParseNumberOf, ErangeAfter;
    ErangeStays(literals, erange, i);
    ParseIntegerLiteral(literals[i].text, ErangeBefore(literals, erange, i));
  }

  const NINES: string := "99999999999999999999"

  /** The literal 2^63 after one of twenty nines becomes floating, and on its own unsigned. */
  lemma ErangeSpoilsNext()
    ensures
      var nines, next := Literal(NINES, false), Literal(INT_64_MIN, false);
      && Raises(nines) && NumberAt([next], false, 0) == UInt64(TWO63)
      && NumberAt([nines, next], false, 1) == Double(INT_64_MIN)
  {
    hide Raises, ErangeAfter, ErangeBefore, ParseNumberOf, IntegerLiteral, LiteralValue;
    var nines, next := Literal(NINES, false), Literal(INT_64_MIN, false);
    NinesRaise();
    ErangeStays([nines, next], false, 1);
    ErangeStays([next], false, 0);
    assert Raises([nines, next][0]);
    BoundaryLiteral();
  }

  /** 2^63 is unsigned, or floating once `errno` is ERANGE. */
  lemma BoundaryLiteral()
    ensures ParseNumberOf(INT_64_MIN, false) == UInt64(TWO63)
    ensures ParseNumberOf(INT_64_MIN, true) == Double(INT_64_MIN)
  {
    hide DigitsValue, AllDigits;
    Boundaries();
    assert Unsigned(INT_64_MIN) == INT_64_MIN && INT_64_MIN[0] == '9';
    assert IntegerLiteral(INT_64_MIN) && LiteralValue(INT_64_MIN) == TWO63;
    ParseIntegerLiteral(INT_64_MIN, false);
    ParseIntegerLiteral(INT_64_MIN, true);
    DoubleKeepsText(INT_64_MIN, true);
  }

  lemma DoubleKeepsText(text: string, erange: bool)
    ensures ParseNumberOf(text, erange).Double? ==> ParseNumberOf(text, erange) == Double(text)
  {
    hide StrToLL, StrToULL, CompareText;
  }

  lemma NinesRaise()
    ensures Raises(Literal(NINES, false))
  {
    NinesTooLarge();
    hide DigitsValue, AllDigits, CompareText, LeadingDigits;
    assert Unsigned(NINES) == NINES && NINES[0] == '9' && |NINES| == UINT64_T_MAX_LEN;
    assert IntegerLiteral(NINES);
    NoDot(NINES);
    LeadingAll(NINES);
    assert StrToULL(NINES).range;
  }

  lemma LeadingAll(d: string)
    requires AllDigits(d)
    ensures LeadingDigits(d) == d
  {
  }

  lemma NinesTooLarge()
    ensures AllDigits(NINES) && DigitsValue(NINES) >= TWO64
  {
    FirstDigit(NINES);
    hide Pow10, DigitsValue;
    Powers();
  }

  lemma FirstDigit(d: string)
    requires d != [] && AllDigits(d)
    ensures DigitsValue(d) >= Digit(d[0]) * Pow10(|d| - 1)
  {
  }
}
