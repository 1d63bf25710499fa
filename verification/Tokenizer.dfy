/** The unescaping and the argument tokenizer of the shell as they work on their buffer, in place. */
module Tokenizer {
  import opened Types
  import opened Quoting

  // What the code computes from a buffer. `None` means that it reads outside the buffer.

  /** The character at `i`, resolved; after a backslash any byte is taken, a zero too. */
  function PieceAt(buf: seq<byte>, i: nat): (p: Option<Piece>)
    requires i < |buf|
    ensures p.Some? ==> 1 <= p.value.n && i + p.value.n <= |buf|
  {
    if buf[i] != BACKSLASH then Some(Piece(buf[i], 1))
    else if i + 1 >= |buf| then None
    else if buf[i+1] == 110 then Some(Piece(10, 2))
    else if buf[i+1] == 116 then Some(Piece(9, 2))
    else if buf[i+1] == 114 then Some(Piece(13, 2))
    else if !Octal(buf[i+1]) then Some(Piece(buf[i+1], 2))
    else if i + 2 >= |buf| then None
    else if !Octal(buf[i+2]) then Some(Piece(OctalValue(buf[i+1]), 2))
    else if i + 3 >= |buf| then None
    else if !Octal(buf[i+3]) then Some(Piece(OctalValue(buf[i+1]) * 8 + OctalValue(buf[i+2]), 3))
    else Some(Piece((OctalValue(buf[i+1]) * 64 + OctalValue(buf[i+2]) * 8 + OctalValue(buf[i+3])) % 256, 4))
  }

  /** `resolve_backslashes` from read index `i` and write index `j` on: the buffer that it leaves. */
  function ResolveAt(buf: seq<byte>, i: nat, j: nat): (r: Option<seq<byte>>)
    requires j <= i
    ensures r.Some? ==> |r.value| == |buf| && j < |buf| && r.value[..j] == buf[..j]
    decreases |buf| - i
  {
    if i >= |buf| then None
    else if buf[i] == 0 then Some(buf[j := 0])
    else
      match PieceAt(buf, i)
      case None => None
      case Some(p) => ResolveAt(buf[j := p.c], i + p.n, j + 1)
  }

  function SpacesEndAt(buf: seq<byte>, i: nat): (k: Option<nat>)
    ensures k.Some? ==> i <= k.value < |buf|
    decreases |buf| - i
  {
    if i >= |buf| then None
    else if IsSpace(buf[i]) then SpacesEndAt(buf, i + 1)
    else Some(i)
  }

  function QuoteEndAt(buf: seq<byte>, i: nat, delim: byte): (k: Option<nat>)
    ensures k.Some? ==> i <= k.value < |buf|
    decreases |buf| - i
  {
    if i >= |buf| then None
    else if buf[i] == 0 || buf[i] == delim then Some(i)
    else if buf[i] == BACKSLASH && delim == DQUOTE then
      if i + 1 >= |buf| then None
      else QuoteEndAt(buf, if buf[i+1] != 0 then i + 2 else i + 1, delim)
    else QuoteEndAt(buf, i + 1, delim)
  }

  function WordEndAt(buf: seq<byte>, i: nat): (k: Option<nat>)
    ensures k.Some? ==> i <= k.value < |buf|
    decreases |buf| - i
  {
    if i >= |buf| then None
    else if buf[i] == 0 || IsSpace(buf[i]) then Some(i)
    else WordEndAt(buf, i + 1)
  }

  /** An argument taken from the buffer: where it starts, where the scan goes on, and the buffer. */
  datatype Taken = Taken(p: nat, next: nat, buf: seq<byte>)

  function TakeAt(buf: seq<byte>, i: nat): (t: Option<Taken>)
    requires i < |buf|
    ensures t.Some? ==> i <= t.value.p && i <= t.value.next && |t.value.buf| == |buf| && t.value.buf[..i] == buf[..i]
  {
    var delim := buf[i];
    var p := if delim == SQUOTE || delim == DQUOTE then i + 1 else i;
    match if p > i then QuoteEndAt(buf, p, delim) else WordEndAt(buf, p)
    case None => None
    case Some(e) =>
      var next := if buf[e] != 0 then e + 1 else e;
      var cut := buf[e := 0];
      if delim == SQUOTE then Some(Taken(p, next, cut))
      else
        match ResolveAt(cut, p, p)
        case None => None
        case Some(b) =>
          assert b[..i] == b[..p][..i] && cut[..i] == cut[..p][..i];
          Some(Taken(p, next, b))
  }

  datatype Tokens = Tokens(args: seq<nat>, buf: seq<byte>)

  /** The loop of the tokenizer from `i` on, with room for `max` arguments. */
  function TokensAt(buf: seq<byte>, i: nat, max: nat): (t: Option<Tokens>)
    ensures t.Some? ==> |t.value.buf| == |buf| && |t.value.args| <= max
    decreases max
  {
    if i >= |buf| then None
    else if buf[i] == 0 || max == 0 then Some(Tokens([], buf))
    else
      match SpacesEndAt(buf, i)
      case None => None
      case Some(k) =>
        if buf[k] == 0 then Some(Tokens([], buf))
        else
          match TakeAt(buf, k)
          case None => None
          case Some(t) =>
            match TokensAt(t.buf, t.next, max - 1)
            case None => None
            case Some(more) => Some(Tokens([t.p] + more.args, more.buf))
  }

  // The code.

  /** The character at `i`, resolved, and the index of the last byte read for it. */
  method ReadPiece(z: array<byte>, i: nat) returns (c: byte, last: nat)
    requires i < z.Length && PieceAt(z[..], i).Some?
    ensures i <= last && PieceAt(z[..], i) == Some(Piece(c, last + 1 - i))
  {
    last := i;
    c := z[i];
    if c == BACKSLASH {
      last := last + 1;
      c := z[last];
      if c == 110 {
        c := 10;
      } else if c == 116 {
        c := 9;
      } else if c == 114 {
        c := 13;
      } else if c == BACKSLASH {
        c := BACKSLASH;
      } else if Octal(c) {
        c := OctalValue(c);
        if Octal(z[last+1]) {
          last := last + 1;
          c := c * 8 + OctalValue(z[last]);
          if Octal(z[last+1]) {
            last := last + 1;
            c := (c * 8 + OctalValue(z[last])) % 256;
          }
        }
      }
    }
  }

  /** `resolve_backslashes`, on any buffer that it does not leave; the write index never passes the read index. */
  method ResolveBackslashes(z: array<byte>, start: nat)
    requires ResolveAt(z[..], start, start).Some?
    modifies z
    ensures Some(z[..]) == ResolveAt(old(z[..]), start, start)
  {
    hide PieceAt;
    var i, j := start, start;
    while z[i] != 0
      invariant 0 <= j <= i < z.Length
      invariant ResolveAt(z[..], i, j) == ResolveAt(old(z[..]), start, start)
      decreases z.Length - i
    {
      ghost var before := z[..];
      var c, last := ReadPiece(z, i);
      z[j] := c;
      assert z[..] == before[j := c];
      i, j := last + 1, j + 1;
    }
    ghost var before := z[..];
    z[j] := 0;
    assert z[..] == before[j := 0];
  }

  method SkipSpacesFrom(line: array<byte>, i: nat) returns (k: nat)
    requires SpacesEndAt(line[..], i).Some?
    ensures SpacesEndAt(line[..], i) == Some(k)
  {
    k := i;
    while IsSpace(line[k])
      invariant i <= k < line.Length && SpacesEndAt(line[..], k) == SpacesEndAt(line[..], i)
      decreases line.Length - k
    {
      k := k + 1;
    }
  }

  /** The scan for the closing quote. */
  method FindQuote(line: array<byte>, i: nat, delim: byte) returns (k: nat)
    requires QuoteEndAt(line[..], i, delim).Some?
    ensures QuoteEndAt(line[..], i, delim) == Some(k)
  {
    k := i;
    while line[k] != 0 && line[k] != delim
      invariant i <= k < line.Length && QuoteEndAt(line[..], k, delim) == QuoteEndAt(line[..], i, delim)
      decreases line.Length - k
    {
      if line[k] == BACKSLASH && delim == DQUOTE && line[k+1] != 0 {
        k := k + 1;
      }
      k := k + 1;
    }
  }

  /** The scan for the space after an unquoted argument. */
  method FindSpace(line: array<byte>, i: nat) returns (k: nat)
    requires WordEndAt(line[..], i).Some?
    ensures WordEndAt(line[..], i) == Some(k)
  {
    k := i;
    while line[k] != 0 && !IsSpace(line[k])
      invariant i <= k < line.Length && WordEndAt(line[..], k) == WordEndAt(line[..], i)
      decreases line.Length - k
    {
      k := k + 1;
    }
  }

  /** One argument at `i`: it is cut out of the line, and unescaped in place. */
  method TakeArgument(line: array<byte>, i: nat) returns (p: nat, next: nat)
    requires i < line.Length && TakeAt(line[..], i).Some?
    modifies line
    ensures Some(Taken(p, next, line[..])) == TakeAt(old(line[..]), i)
  {
    hide ResolveAt, QuoteEndAt, WordEndAt;
    var delim := line[i];
    if delim == SQUOTE || delim == DQUOTE {
      p := i + 1;
      next := FindQuote(line, p, delim);
    } else {
      p := i;
      next := FindSpace(line, i);
    }
    ghost var cut := line[..][next := 0];
    if line[next] != 0 {
      line[next] := 0;
      next := next + 1;
    }
    assert line[..] == cut;
    if delim != SQUOTE {
      ResolveBackslashes(line, p);
    }
  }

  /** The loop of `do_meta_command` that cuts a line, from its second byte on, into at most 50 arguments. */
  method Tokenize(line: array<byte>) returns (azArg: seq<nat>)
    requires TokensAt(line[..], 1, MAX_ARGS).Some?
    modifies line
    ensures Some(Tokens(azArg, line[..])) == TokensAt(old(line[..]), 1, MAX_ARGS)
  {
    hide TakeAt, SpacesEndAt, TokensAt;
    TokensStep(line[..], 1, MAX_ARGS);
    ghost var all := TokensAt(line[..], 1, MAX_ARGS).value;
    var i := 1;
    azArg := [];
    while line[i] != 0 && |azArg| < MAX_ARGS
      invariant 0 <= i < line.Length && |azArg| <= MAX_ARGS
      invariant var more := TokensAt(line[..], i, MAX_ARGS - |azArg|);
                more.Some? && all == Tokens(azArg + more.value.args, more.value.buf)
      decreases MAX_ARGS - |azArg|
    {
      ghost var max := MAX_ARGS - |azArg|;
      ghost var more := TokensAt(line[..], i, max).value;
      TokensStep(line[..], i, max);
      i := SkipSpacesFrom(line, i);
      if line[i] == 0 {
        assert azArg + [] == azArg;
        return;
      }
      var p;
      p, i := TakeArgument(line, i);
      ghost var later := TokensAt(line[..], i, max - 1).value;
      TokensStep(line[..], i, max - 1);
      Joined(azArg, [p], later.args);
      azArg := azArg + [p];
    }
    TokensStep(line[..], i, MAX_ARGS - |azArg|);
    assert azArg + [] == azArg;
  }

  /** What `TokensAt` answers, one argument further. */
  lemma TokensStep(buf: seq<byte>, i: nat, max: nat)
    requires TokensAt(buf, i, max).Some?
    ensures i < |buf|
    ensures
      var t := TokensAt(buf, i, max).value;
      if buf[i] == 0 || max == 0 then t == Tokens([], buf)
      else
        && SpacesEndAt(buf, i).Some?
        && var k := SpacesEndAt(buf, i).value;
           if buf[k] == 0 then t == Tokens([], buf)
           else
             && TakeAt(buf, k).Some?
             && var a := TakeAt(buf, k).value;
                && TokensAt(a.buf, a.next, max - 1).Some?
                && var more := TokensAt(a.buf, a.next, max - 1).value;
                   t == Tokens([a.p] + more.args, more.buf)
  {
    hide TakeAt, SpacesEndAt;
  }

  // What this means for the strings in the buffer.

  /** The bytes of `s` at `p` and a terminating zero. */
  predicate Holds(buf: seq<byte>, p: nat, s: seq<byte>) {
    p + |s| < |buf| && buf[p..p+|s|] == s && buf[p+|s|] == 0
  }

  lemma HoldsFrom(buf: seq<byte>, p: nat, s: seq<byte>, k: nat)
    requires Holds(buf, p, s) && k <= |s|
    ensures Holds(buf, p + k, s[k..]) && p + |s| < |buf|
    ensures buf[p+k] == if k < |s| then s[k] else 0
  {
  }

  lemma StillHolds(before: seq<byte>, after: seq<byte>, p: nat, s: seq<byte>)
    requires Holds(before, p, s) && |after| == |before|
    requires forall k :: p <= k <= p + |s| ==> after[k] == before[k]
    ensures Holds(after, p, s)
  {
    assert after[p..p+|s|] == before[p..p+|s|];
  }

  lemma CStringFrom(s: seq<byte>, k: nat)
    requires CString(s) && k <= |s|
    ensures CString(s[k..])
  {
  }

  /** The characters of a string before a backslash that escapes nothing; all of them when there is none. */
  function Resolved(s: seq<byte>): (r: seq<byte>)
    ensures |r| <= |s| && (Resolve(s).None? ==> |r| < |s|)
    ensures Resolve(s).Some? ==> r == Resolve(s).value
    decreases |s|
  {
    if s == [] then []
    else
      match First(s)
      case None => []
      case Some(p) => [p.c] + Resolved(s[p.n..])
  }

  /** The buffer with `r` and a zero written at `j`. */
  function Written(buf: seq<byte>, j: nat, r: seq<byte>): (w: seq<byte>)
    requires j + |r| < |buf|
    ensures |w| == |buf| && Holds(w, j, r)
    ensures forall k :: 0 <= k < |buf| && (k < j || k > j + |r|) ==> w[k] == buf[k]
  {
    buf[..j] + r + [0] + buf[j+|r|+1..]
  }

  lemma WrittenStep(buf: seq<byte>, j: nat, c: byte, r: seq<byte>)
    requires j + 1 + |r| < |buf|
    ensures Written(buf[j := c], j + 1, r) == Written(buf, j, [c] + r)
  {
  }

  /** The piece read from the buffer is the piece of the string; a lone backslash reads the terminator as its piece. */
  lemma PieceBack(buf: seq<byte>, i: nat, s: seq<byte>)
    requires Holds(buf, i, s) && CString(s) && s != []
    ensures PieceAt(buf, i) == if First(s).Some? then First(s) else Some(Piece(0, 2))
  {
    assert forall k :: 0 <= k < |s| ==> buf[i+k] == s[k];
  }

  /**
   * The string at the read index is resolved to the write index, and nothing else changes, when no backslash is left
   * over. Otherwise the loop takes the terminator for an escaped character and goes on behind it.
   */
  lemma {:induction false} ResolveRuns(buf: seq<byte>, i: nat, j: nat, s: seq<byte>)
    requires Holds(buf, i, s) && CString(s) && j <= i
    ensures
      var r := Resolved(s);
      var w := Written(buf, j, r);
      ResolveAt(buf, i, j)
      == if Resolve(s).Some? then Some(w) else ResolveAt(w, i + |s| + 1, j + |r| + 1)
    decreases |s|
  {
    hide First, PieceAt, Holds, Written, CString, Resolve, Resolved, ResolveAt;
    HoldsFrom(buf, i, s, 0);
    ResolveAtStep(buf, i, j);
    if s == [] {
      NothingResolved();
      WrittenNone(buf, j);
    } else {
      NotZero(s);
      PieceBack(buf, i, s);
      match First(s)
      case None =>
        LoneBackslash(s);
        WrittenNone(buf, j);
      case Some(p) =>
        ResolvedStep(s);
        var buf', rest := buf[j := p.c], s[p.n..];
        HoldsFrom(buf, i, s, p.n);
        CStringFrom(s, p.n);
        StillHolds(buf, buf', i + p.n, rest);
        ResolveRuns(buf', i + p.n, j + 1, rest);
        WrittenStep(buf, j, p.c, Resolved(rest));
    }
  }

  lemma ResolveAtStep(buf: seq<byte>, i: nat, j: nat)
    requires j <= i < |buf|
    ensures
      ResolveAt(buf, i, j)
      == if buf[i] == 0 then Some(buf[j := 0])
         else if PieceAt(buf, i).None? then None
         else var p := PieceAt(buf, i).value; ResolveAt(buf[j := p.c], i + p.n, j + 1)
  {
    hide PieceAt;
  }

  lemma NothingResolved()
    ensures Resolve([]) == Some([]) && Resolved([]) == []
  {
  }

  lemma ResolvedStep(s: seq<byte>)
    requires s != [] && First(s).Some?
    ensures
      var p := First(s).value;
      Resolved(s) == [p.c] + Resolved(s[p.n..]) && (Resolve(s).Some? <==> Resolve(s[p.n..]).Some?)
  {
    hide First;
  }

  lemma WrittenNone(buf: seq<byte>, j: nat)
    requires j < |buf|
    ensures Written(buf, j, []) == buf[j := 0]
  {
  }

  lemma NotZero(s: seq<byte>)
    requires CString(s) && s != []
    ensures s[0] != 0
  {
  }

  lemma LoneBackslash(s: seq<byte>)
    requires s != [] && First(s).None?
    ensures s == [BACKSLASH] && Resolved(s) == [] && Resolve(s).None?
  {
  }

  /**
   * On a buffer that ends with the string's terminator, the code stays inside if and only if the string ends in an even
   * number of backslashes; then it leaves the resolved string.
   */
  lemma InsideExact(s: seq<byte>)
    requires CString(s)
    ensures ResolveAt(s + [0], 0, 0).Some? <==> TrailingBackslashes(s) % 2 == 0
    ensures ResolveAt(s + [0], 0, 0).Some? ==>
              Resolve(s).Some? && Holds(ResolveAt(s + [0], 0, 0).value, 0, Resolve(s).value)
  {
    hide Written, Resolve, Resolved, TrailingBackslashes;
    var buf := s + [0];
    assert buf[0..0+|s|] == s;
    ResolveRuns(buf, 0, 0, s);
    ResolveExact(s);
  }

  lemma {:induction false} SpacesEndBack(buf: seq<byte>, i: nat, s: seq<byte>)
    requires Holds(buf, i, s)
    ensures SpacesEndAt(buf, i) == Some(i + |s| - |SkipSpaces(s)|)
    ensures Holds(buf, i + |s| - |SkipSpaces(s)|, SkipSpaces(s))
    decreases |s|
  {
    hide Holds;
    HoldsFrom(buf, i, s, 0);
    if s != [] && IsSpace(s[0]) {
      HoldsFrom(buf, i, s, 1);
      SpacesEndBack(buf, i + 1, s[1..]);
    }
  }

  lemma {:induction false} QuoteEndFound(buf: seq<byte>, i: nat, delim: byte, s: seq<byte>)
    requires Holds(buf, i, s) && CString(s) && delim != 0
    ensures QuoteEndAt(buf, i, delim) == Some(i + QuoteEnd(s, delim))
    decreases |s|
  {
    hide Holds, CString;
    HoldsFrom(buf, i, s, 0);
    if s != [] {
      NotZero(s);
      HoldsFrom(buf, i, s, 1);
      CStringFrom(s, 1);
      if s[0] == BACKSLASH && delim == DQUOTE && |s| > 1 {
        NotZero(s[1..]);
        HoldsFrom(buf, i, s, 2);
        CStringFrom(s, 2);
        QuoteEndFound(buf, i + 2, delim, s[2..]);
      } else if s[0] != delim {
        QuoteEndFound(buf, i + 1, delim, s[1..]);
      }
    }
  }

  lemma {:induction false} WordEndFound(buf: seq<byte>, i: nat, s: seq<byte>)
    requires Holds(buf, i, s) && CString(s)
    ensures WordEndAt(buf, i) == Some(i + BareEnd(s))
    decreases |s|
  {
    hide Holds, CString;
    HoldsFrom(buf, i, s, 0);
    if s != [] {
      NotZero(s);
      HoldsFrom(buf, i, s, 1);
      CStringFrom(s, 1);
      if !IsSpace(s[0]) {
        WordEndFound(buf, i + 1, s[1..]);
      }
    }
  }

  /** Cutting `s` after its first `n` bytes leaves those, and what follows the byte cut over. */
  lemma CutHolds(buf: seq<byte>, p: nat, s: seq<byte>, n: nat)
    requires Holds(buf, p, s) && CString(s) && n <= |s|
    ensures
      var next := if buf[p+n] != 0 then p + n + 1 else p + n;
      && Holds(buf[p+n := 0], p, s[..n]) && CString(s[..n])
      && Holds(buf[p+n := 0], next, After(s, n)) && next + |After(s, n)| == p + |s|
      && (p + n < next || After(s, n) == [])
  {
    HoldsFrom(buf, p, s, n);
    var cut := buf[p+n := 0];
    assert cut[p..p+n] == buf[p..p+n] == buf[p..p+|s|][..n];
    if n < |s| {
      HoldsFrom(buf, p, s, n + 1);
      StillHolds(buf, cut, p + n + 1, s[n+1..]);
    }
  }

  lemma AfterFrom(s: seq<byte>, k: nat, n: nat)
    requires k + n <= |s|
    ensures After(s, k + n) == After(s[k..], n) && s[k..][..n] == s[k..k+n]
  {
  }

  /** Unescaping an argument that has been cut out leaves what follows it. */
  lemma ResolveCut(cut: seq<byte>, p: nat, raw: seq<byte>, next: nat, rest: seq<byte>)
    requires Holds(cut, p, raw) && CString(raw) && Resolve(raw).Some? && Holds(cut, next, rest)
    requires p + |raw| < next || (p + |raw| == next && rest == [])
    ensures ResolveAt(cut, p, p).Some?
    ensures
      var w, r := ResolveAt(cut, p, p).value, Resolve(raw).value;
      && Holds(w, p, r) && Holds(w, next, rest) && (p + |r| < next || rest == [])
      && forall k :: p + |raw| < k < |cut| ==> w[k] == cut[k]
  {
    hide Holds, CString, Resolve, ResolveAt, Written;
    var r := Resolved(raw);
    HoldsFrom(cut, p, raw, 0);
    ResolveRuns(cut, p, p, raw);
    HoldsFrom(Written(cut, p, r), p, r, |r|);
    StillThere(cut, Written(cut, p, r), next, rest, p + |r|);
  }

  /** The first argument is found, and cut out with what follows it. */
  lemma ArgumentCut(buf: seq<byte>, i: nat, s: seq<byte>) returns (p: nat, n: nat, next: nat, cut: seq<byte>)
    requires Holds(buf, i, s) && CString(s) && s != []
    ensures i < |buf| && Raw(s) == (p - i, n) && i <= p && cut == buf[p+n := 0] && p + n <= i + |s| < |buf|
    ensures TakeAt(buf, i) == if s[0] == SQUOTE then Some(Taken(p, next, cut))
                              else if ResolveAt(cut, p, p).None? then None
                              else Some(Taken(p, next, ResolveAt(cut, p, p).value))
    ensures Holds(cut, p, s[p-i..p-i+n]) && CString(s[p-i..p-i+n])
    ensures Holds(cut, next, AfterArgument(s)) && next + |AfterArgument(s)| == i + |s|
    ensures p + n < next || (p + n == next && AfterArgument(s) == [])
  {
    hide Holds, CString, After, ResolveAt, TakeAt, Raw;
    var k := Raw(s).0;
    n := Raw(s).1;
    ArgumentEnd(buf, i, s);
    HoldsFrom(buf, i, s, k);
    CStringFrom(s, k);
    p, cut, next := i + k, buf[i+k+n := 0], if buf[i+k+n] != 0 then i + k + n + 1 else i + k + n;
    AfterFrom(s, k, n);
    CutHolds(buf, p, s[k..], n);
  }

  /** The scan finds the end of the first argument. */
  lemma ArgumentEnd(buf: seq<byte>, i: nat, s: seq<byte>)
    requires Holds(buf, i, s) && CString(s) && s != []
    ensures i + |s| < |buf| && buf[i] == s[0] && Raw(s).0 == (if s[0] == SQUOTE || s[0] == DQUOTE then 1 else 0)
    ensures
      var (k, n) := Raw(s);
      var next, cut := if buf[i+k+n] != 0 then i + k + n + 1 else i + k + n, buf[i+k+n := 0];
      TakeAt(buf, i) == if s[0] == SQUOTE then Some(Taken(i + k, next, cut))
                        else if ResolveAt(cut, i + k, i + k).None? then None
                        else Some(Taken(i + k, next, ResolveAt(cut, i + k, i + k).value))
  {
    hide Holds, CString, QuoteEnd, BareEnd, QuoteEndAt, WordEndAt, ResolveAt, TakeAt;
    HoldsFrom(buf, i, s, 0);
    NotZero(s);
    if s[0] == SQUOTE || s[0] == DQUOTE {
      HoldsFrom(buf, i, s, 1);
      CStringFrom(s, 1);
      QuoteEndFound(buf, i + 1, s[0], s[1..]);
    } else {
      WordEndFound(buf, i, s);
    }
    TakeStep(buf, i, i + Raw(s).0 + Raw(s).1);
  }

  /** An argument that has a value is taken with it, and the rest of the line is untouched. */
  lemma TakeBack(buf: seq<byte>, i: nat, s: seq<byte>)
    requires Holds(buf, i, s) && CString(s) && s != [] && Argument(s).Some?
    ensures i < |buf| && TakeAt(buf, i).Some?
    ensures
      var t, a := TakeAt(buf, i).value, Argument(s).value;
      && Holds(t.buf, t.next, AfterArgument(s)) && t.next + |AfterArgument(s)| == i + |s|
      && Holds(t.buf, t.p, a) && (t.p + |a| < t.next || AfterArgument(s) == [])
      && forall k :: i + |s| < k < |buf| ==> t.buf[k] == buf[k]
  {
    hide Holds, CString, Resolve, AfterArgument, ResolveAt, TakeAt, Raw;
    var p, n, next, cut := ArgumentCut(buf, i, s);
    if s[0] != SQUOTE {
      ResolveCut(cut, p, s[p-i..p-i+n], next, AfterArgument(s));
    }
  }

  lemma TakeStep(buf: seq<byte>, i: nat, e: nat)
    requires i < |buf|
    requires Some(e) ==
             if buf[i] == SQUOTE || buf[i] == DQUOTE then QuoteEndAt(buf, i + 1, buf[i]) else WordEndAt(buf, i)
    ensures
      var p := if buf[i] == SQUOTE || buf[i] == DQUOTE then i + 1 else i;
      var next, cut := if buf[e] != 0 then e + 1 else e, buf[e := 0];
      TakeAt(buf, i)
      == if buf[i] == SQUOTE then Some(Taken(p, next, cut))
         else if ResolveAt(cut, p, p).None? then None
         else Some(Taken(p, next, ResolveAt(cut, p, p).value))
  {
    hide QuoteEndAt, WordEndAt, ResolveAt;
  }

  /** A string behind everything that was written is still there; so is an empty one whose zero was written. */
  lemma StillThere(before: seq<byte>, after: seq<byte>, p: nat, s: seq<byte>, last: nat)
    requires Holds(before, p, s) && |after| == |before| && (last < p || (last == p && s == []))
    requires forall k :: last < k < |before| ==> after[k] == before[k]
    requires last < |after| && after[last] == 0
    ensures Holds(after, p, s)
  {
  }

  /** The arguments of a line, when all have values, are what the tokenizer's pointers point at. */
  lemma {:induction false} TokensBack(buf: seq<byte>, i: nat, s: seq<byte>, max: nat)
    requires Holds(buf, i, s) && CString(s) && Args(s, max).Some?
    ensures TokensAt(buf, i, max).Some?
    ensures
      var t, args := TokensAt(buf, i, max).value, Args(s, max).value;
      && t.buf[..i] == buf[..i] && |t.args| == |args|
      && forall k :: 0 <= k < |args| ==> Holds(t.buf, t.args[k], args[k])
    decreases max
  {
    hide Holds, CString, TakeAt, SpacesEndAt, SkipSpaces, Argument, AfterArgument, TokensAt, Args;
    HoldsFrom(buf, i, s, 0);
    SpacesEndBack(buf, i, s);
    ArgsStep(s, max);
    var t := SkipSpaces(s);
    var k := i + |s| - |t|;
    HoldsFrom(buf, k, t, 0);
    TokensEnd(buf, i, max);
    if s != [] && max > 0 {
      NotZero(s);
      if t != [] {
        NotZero(t);
        TakeBack(buf, k, t);
        var a := TakeAt(buf, k).value;
        TokensBack(a.buf, a.next, AfterArgument(t), max - 1);
        var more := TokensAt(a.buf, a.next, max - 1).value;
        TokensMore(buf, i, max);
        PrefixKept(buf, a.buf, more.buf, i, k, a.next);
        FirstKept(a, AfterArgument(t), max - 1, Argument(t).value);
      }
    }
  }

  lemma ArgsStep(s: seq<byte>, max: nat)
    requires Args(s, max).Some?
    ensures
      var t := SkipSpaces(s);
      if t == [] || max == 0 then Args(s, max).value == []
      else
        && Argument(t).Some? && Args(AfterArgument(t), max - 1).Some?
        && Args(s, max).value == [Argument(t).value] + Args(AfterArgument(t), max - 1).value
    ensures s == [] ==> SkipSpaces(s) == []
  {
    hide Argument, AfterArgument;
  }

  lemma TokensEnd(buf: seq<byte>, i: nat, max: nat)
    requires i < |buf| && SpacesEndAt(buf, i).Some?
    ensures buf[i] == 0 || max == 0 || buf[SpacesEndAt(buf, i).value] == 0 ==>
              TokensAt(buf, i, max) == Some(Tokens([], buf))
  {
    hide SpacesEndAt, TakeAt;
  }

  lemma TokensMore(buf: seq<byte>, i: nat, max: nat)
    requires i < |buf| && buf[i] != 0 && max > 0
    requires SpacesEndAt(buf, i).Some? && buf[SpacesEndAt(buf, i).value] != 0
    requires TakeAt(buf, SpacesEndAt(buf, i).value).Some?
    ensures
      var t := TakeAt(buf, SpacesEndAt(buf, i).value).value;
      var more := TokensAt(t.buf, t.next, max - 1);
      more.Some? ==> TokensAt(buf, i, max) == Some(Tokens([t.p] + more.value.args, more.value.buf))
  {
    hide SpacesEndAt, TakeAt;
  }

  lemma PrefixKept(a: seq<byte>, b: seq<byte>, c: seq<byte>, i: nat, k: nat, next: nat)
    requires |a| == |b| == |c| && i <= k <= next <= |a| && b[..k] == a[..k] && c[..next] == b[..next]
    ensures c[..i] == a[..i]
  {
    assert c[..i] == c[..next][..i] && b[..i] == b[..next][..i] == b[..k][..i] && a[..i] == a[..k][..i];
  }

  /** The arguments after the first leave it where it is. */
  lemma FirstKept(t: Taken, rest: seq<byte>, max: nat, a: seq<byte>)
    requires Holds(t.buf, t.next, rest) && Holds(t.buf, t.p, a) && (t.p + |a| < t.next || rest == [])
    requires TokensAt(t.buf, t.next, max).Some? && TokensAt(t.buf, t.next, max).value.buf[..t.next] == t.buf[..t.next]
    ensures Holds(TokensAt(t.buf, t.next, max).value.buf, t.p, a)
  {
    var after := TokensAt(t.buf, t.next, max).value.buf;
    HoldsFrom(t.buf, t.next, rest, 0);
    if t.p + |a| < t.next {
      forall k | t.p <= k <= t.p + |a|
        ensures after[k] == t.buf[k]
      {
        assert after[..t.next][k] == t.buf[..t.next][k];
      }
      StillHolds(t.buf, after, t.p, a);
    }
  }

  /** A line in its buffer: if no argument ends in a left-over backslash, its arguments are found, with their values. */
  lemma LineTokens(s: seq<byte>, tail: seq<byte>)
    requires s != [] && CString(s) && !Dangling(s[1..], MAX_ARGS)
    ensures Args(s[1..], MAX_ARGS).Some? && TokensAt(s + [0] + tail, 1, MAX_ARGS).Some?
    ensures
      var t, args := TokensAt(s + [0] + tail, 1, MAX_ARGS).value, Args(s[1..], MAX_ARGS).value;
      |t.args| == |args| && forall k :: 0 <= k < |args| ==> Holds(t.buf, t.args[k], args[k])
  {
    hide Args, TokensAt, Dangling;
    ArgsExact(s[1..], MAX_ARGS);
    var buf := s + [0] + tail;
    assert buf[0..0+|s|] == s;
    HoldsFrom(buf, 0, s, 1);
    CStringFrom(s, 1);
    TokensBack(buf, 1, s[1..], MAX_ARGS);
  }

  /**
   * A line `.w "a" "b" ...` with printed strings, tokenized in its buffer: the pointers point at the name and at
   * exactly the strings that were printed.
   */
  lemma CommandTokens(w: seq<byte>, items: seq<(seq<byte>, seq<byte>)>, tail: seq<byte>)
    requires Word(w) && |items| < MAX_ARGS && CString(w + Line(items))
    requires forall i :: 0 <= i < |items| ==> Blank(items[i].0)
    requires items != [] ==> items[0].0 != []
    ensures TokensAt([DOT] + (w + Line(items)) + [0] + tail, 1, MAX_ARGS).Some?
    ensures
      var t, args := TokensAt([DOT] + (w + Line(items)) + [0] + tail, 1, MAX_ARGS).value, [w] + Values(items);
      |t.args| == |args| && forall k :: 0 <= k < |args| ==> Holds(t.buf, t.args[k], args[k])
  {
    hide Args, TokensAt, Dangling, Word, Blank, Line, Values, Holds;
    var s := [DOT] + (w + Line(items));
    assert s[1..] == w + Line(items);
    CommandBack(w, items, MAX_ARGS);
    ArgsExact(s[1..], MAX_ARGS);
    LineTokens(s, tail);
  }

  const DOT: byte := 46

  // A line whose second argument ends in a left-over backslash.

  const LINE: seq<byte> := [46, 102, 111, 111, 32, 97, 92, 32, 98, 0]      // .foo a\ b
  const LINE_CUT: seq<byte> := [46, 102, 111, 111, 0, 97, 92, 32, 98, 0]   // after the first argument
  const LINE_LEFT: seq<byte> := [46, 102, 111, 111, 0, 97, 0, 98, 0, 0]    // after the second

  lemma FirstWord()
    ensures TakeAt(LINE, 1) == Some(Taken(1, 5, LINE_CUT))
  {
    assert WordEndAt(LINE, 4) == Some(4);
    assert WordEndAt(LINE, 1) == Some(4);
    assert LINE[4 := 0] == LINE_CUT;
    hide WordEndAt, ResolveAt;
    ResolveAtStep(LINE_CUT, 1, 1);
    ResolveAtStep(LINE_CUT, 2, 2);
    ResolveAtStep(LINE_CUT, 3, 3);
    ResolveAtStep(LINE_CUT, 4, 4);
    assert LINE_CUT[1 := 102] == LINE_CUT[2 := 111] == LINE_CUT[3 := 111] == LINE_CUT[4 := 0] == LINE_CUT;
    TakeStep(LINE, 1, 4);
  }

  /** The zero put over the space is taken for the escaped character, and the third word is moved and zeroed. */
  lemma SecondWord()
    ensures TakeAt(LINE_CUT, 5) == Some(Taken(5, 8, LINE_LEFT))
  {
    assert WordEndAt(LINE_CUT, 5) == Some(7);
    hide WordEndAt, ResolveAt;
    var cut: seq<byte> := [46, 102, 111, 111, 0, 97, 92, 0, 98, 0];
    var zeroed: seq<byte> := [46, 102, 111, 111, 0, 97, 0, 0, 98, 0];
    var moved: seq<byte> := [46, 102, 111, 111, 0, 97, 0, 98, 98, 0];
    assert LINE_CUT[7 := 0] == cut == cut[5 := 97];
    assert cut[6 := 0] == zeroed && zeroed[7 := 98] == moved && moved[8 := 0] == LINE_LEFT;
    ResolveAtStep(cut, 5, 5);
    ResolveAtStep(cut, 6, 6);
    ResolveAtStep(zeroed, 8, 7);
    ResolveAtStep(moved, 9, 8);
    TakeStep(LINE_CUT, 5, 7);
  }

  /** Of the three words the tokenizer finds two: where the third was there is a zero. */
  lemma LeftoverBackslash()
    ensures Dangling(FOO + ([32] + (LEFT_OVER + ([32] + THIRD))), MAX_ARGS)
    ensures LINE == [46] + (FOO + ([32] + (LEFT_OVER + ([32] + THIRD)))) + [0]
    ensures TokensAt(LINE, 1, MAX_ARGS) == Some(Tokens([1, 5], LINE_LEFT))
  {
    assert SpacesEndAt(LINE, 1) == Some(1) && SpacesEndAt(LINE_CUT, 5) == Some(5);
    assert SpacesEndAt(LINE_LEFT, 8) == Some(8);
    assert LINE[1] != 0 && LINE_CUT[5] != 0 && LINE_LEFT[8] == 0;
    hide SpacesEndAt, TakeAt, TokensAt, Dangling, TrailingBackslashes;
    OneBackslash(LEFT_OVER);
    DanglingSecond(FOO, LEFT_OVER, [32] + THIRD, MAX_ARGS);
    FirstWord();
    SecondWord();
    TwoTokens(LINE, 1, Taken(1, 5, LINE_CUT), Taken(5, 8, LINE_LEFT), MAX_ARGS);
  }

  const FOO: seq<byte> := [102, 111, 111]
  const LEFT_OVER: seq<byte> := [97, 92]
  const THIRD: seq<byte> := [98]

  lemma TwoTokens(buf: seq<byte>, i: nat, t: Taken, u: Taken, max: nat)
    requires i < |buf| && max > 2 && SpacesEndAt(buf, i) == Some(i) && buf[i] != 0 && TakeAt(buf, i) == Some(t)
    requires t.next < |t.buf| && t.buf[t.next] != 0
    requires SpacesEndAt(t.buf, t.next) == Some(t.next) && TakeAt(t.buf, t.next) == Some(u)
    requires u.next < |u.buf| && u.buf[u.next] == 0 && SpacesEndAt(u.buf, u.next).Some?
    ensures TokensAt(buf, i, max) == Some(Tokens([t.p, u.p], u.buf))
  {
    hide SpacesEndAt, TakeAt, TokensAt;
    TokensEnd(u.buf, u.next, max - 2);
    TokensMore(t.buf, t.next, max - 1);
    TokensMore(buf, i, max);
    assert [t.p] + ([u.p] + []) == [t.p, u.p];
  }

  lemma OneBackslash(s: seq<byte>)
    requires |s| == 2 && s[0] != BACKSLASH && s[1] == BACKSLASH
    ensures TrailingBackslashes(s) == 1
  {
    assert s[..1] == [s[0]];
    assert TrailingBackslashes([s[0]]) == 0;
  }

  /** The second of two words, before more white space, ends in a left-over backslash. */
  lemma DanglingSecond(first: seq<byte>, second: seq<byte>, tail: seq<byte>, max: nat)
    requires Bare(first) && Bare(second) && TrailingBackslashes(second) % 2 == 1 && max > 1
    requires tail == [] || IsSpace(tail[0])
    ensures Dangling(first + ([32] + (second + tail)), max)
  {
    hide BareEnd, TrailingBackslashes, Dangling;
    var rest := second + tail;
    var line := first + ([32] + rest);
    BareEndBack(first, [32] + rest);
    assert line[|first|+1..] == rest;
    BareEndBack(second, tail);
    assert rest[0..0+|second|] == second;
    DanglingFirst(rest, max - 1);
    DanglingLater(line, max);
  }

  lemma DanglingFirst(s: seq<byte>, max: nat)
    requires s != [] && !IsSpace(s[0]) && s[0] != SQUOTE && max > 0
    requires TrailingBackslashes(s[Raw(s).0..Raw(s).0+Raw(s).1]) % 2 == 1
    ensures Dangling(s, max)
  {
    hide TrailingBackslashes, AfterArgument, Raw;
    assert SkipSpaces(s) == s;
  }

  lemma DanglingLater(s: seq<byte>, max: nat)
    requires s != [] && !IsSpace(s[0]) && max > 0 && Dangling(AfterArgument(s), max - 1)
    ensures Dangling(s, max)
  {
    hide TrailingBackslashes, AfterArgument, Raw;
    assert SkipSpaces(s) == s;
  }
}
