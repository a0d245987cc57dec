/** JavaScript strings as sequences of UTF-16 code units, with the handful of
    `String.prototype` operations the directory code uses. */
module JsString {

  /** One UTF-16 code unit; `charCodeAt`, `split('')`, `s[0]` and `substring`
      all work in these units. */
  type CodeUnit = c: int | 0 <= c < 0x1_0000

  type Str = seq<CodeUnit>

  const Space: CodeUnit := 0x20

  /** The code units of a string literal written in the source. Every literal
      the directory code uses is ASCII, so each character is one code unit. */
  function Lit(s: string): (r: Str)
    ensures |r| == |s|
  {
    seq(|s|, i requires 0 <= i < |s| => if s[i] as int < 0x1_0000 then s[i] as int else 0xFFFD)
  }

  /** Concatenating literals and then reading them gives the same code units. */
  lemma LitAppend(a: string, b: string)
    ensures Lit(a + b) == Lit(a) + Lit(b)
  {
  }

  // ---------------------------------------------------------------------------
  // Case mapping (ASCII letters only)
  // ---------------------------------------------------------------------------

  predicate IsUpperAscii(c: CodeUnit) { 0x41 <= c <= 0x5A }
  predicate IsLowerAscii(c: CodeUnit) { 0x61 <= c <= 0x7A }

  function LowerUnit(c: CodeUnit): CodeUnit {
    if IsUpperAscii(c) then c + 0x20 else c
  }

  function UpperUnit(c: CodeUnit): CodeUnit {
    if IsLowerAscii(c) then c - 0x20 else c
  }

  /** `toLowerCase`, restricted to the ASCII letters. */
  function ToLower(s: Str): (r: Str)
    ensures |r| == |s|
    ensures forall i :: 0 <= i < |s| ==> r[i] == LowerUnit(s[i])
  {
    seq(|s|, i requires 0 <= i < |s| => LowerUnit(s[i]))
  }

  /** `toUpperCase`, restricted to the ASCII letters. */
  function ToUpper(s: Str): (r: Str)
    ensures |r| == |s|
    ensures forall i :: 0 <= i < |s| ==> r[i] == UpperUnit(s[i])
  {
    seq(|s|, i requires 0 <= i < |s| => UpperUnit(s[i]))
  }

  // ---------------------------------------------------------------------------
  // trim()
  // ---------------------------------------------------------------------------

  /** ECMAScript WhiteSpace and LineTerminator code points (section 12.2 and
      12.3 of ECMA-262), the set `String.prototype.trim` strips. */
  predicate IsWhitespace(c: CodeUnit) {
    || c == 0x09 || c == 0x0A || c == 0x0B || c == 0x0C || c == 0x0D
    || c == 0x20 || c == 0xA0 || c == 0x1680
    || (0x2000 <= c <= 0x200A)
    || c == 0x2028 || c == 0x2029 || c == 0x202F || c == 0x205F
    || c == 0x3000 || c == 0xFEFF
  }

  predicate AllWhitespace(s: Str) {
    forall i :: 0 <= i < |s| ==> IsWhitespace(s[i])
  }

  /** Lowercasing neither creates nor removes whitespace. */
  lemma LowerPreservesWhitespace(c: CodeUnit)
    ensures IsWhitespace(LowerUnit(c)) <==> IsWhitespace(c)
  {
  }

  function TrimStart(s: Str): (r: Str)
    ensures |r| <= |s| && r == s[|s| - |r|..]
    ensures AllWhitespace(s[..|s| - |r|])
    ensures r == [] || !IsWhitespace(r[0])
  {
    if s == [] || !IsWhitespace(s[0]) then s else TrimStart(s[1..])
  }

  function TrimEnd(s: Str): (r: Str)
    ensures |r| <= |s| && r == s[..|r|]
    ensures AllWhitespace(s[|r|..])
    ensures r == [] || !IsWhitespace(r[|r| - 1])
  {
    if s == [] || !IsWhitespace(s[|s| - 1]) then s else TrimEnd(s[..|s| - 1])
  }

  /** `trim()`: the slice of `s` left after stripping whitespace at both ends. */
  function Trim(s: Str): (r: Str)
    ensures exists i, j :: 0 <= i <= j <= |s| && r == s[i..j]
              && AllWhitespace(s[..i]) && AllWhitespace(s[j..])
    ensures r == [] || (!IsWhitespace(r[0]) && !IsWhitespace(r[|r| - 1]))
  {
    var t := TrimStart(s);
    var r := TrimEnd(t);
    TrimIsSlice(s, t, r);
    r
  }

  lemma TrimIsSlice(s: Str, t: Str, r: Str)
    requires |t| <= |s| && t == s[|s| - |t|..] && AllWhitespace(s[..|s| - |t|])
    requires |r| <= |t| && r == t[..|r|] && AllWhitespace(t[|r|..])
    ensures var i := |s| - |t|;
      && 0 <= i <= i + |r| <= |s| && r == s[i..i + |r|]
      && AllWhitespace(s[..i]) && AllWhitespace(s[i + |r|..])
  {
    var i := |s| - |t|;
    assert AllWhitespace(s[..i]);
    assert t == s[i..];
    assert r == t[..|r|];
    assert r == s[i..i + |r|];
    var tail := t[|r|..];
    assert AllWhitespace(tail);
    assert s[i + |r|..] == tail;
  }

  lemma {:induction false} TrimStartLower(s: Str)
    ensures TrimStart(ToLower(s)) == ToLower(TrimStart(s))
    decreases |s|
  {
    if s != [] {
      LowerPreservesWhitespace(s[0]);
      if IsWhitespace(s[0]) {
        var l := ToLower(s);
        assert l[1..] == ToLower(s[1..]);
        TrimStartSkip(l);
        TrimStartSkip(s);
        TrimStartLower(s[1..]);
      }
    }
  }

  lemma {:induction false} TrimEndLower(s: Str)
    ensures TrimEnd(ToLower(s)) == ToLower(TrimEnd(s))
    decreases |s|
  {
    if s != [] {
      LowerPreservesWhitespace(s[|s| - 1]);
      if IsWhitespace(s[|s| - 1]) {
        assert ToLower(s)[..|s| - 1] == ToLower(s[..|s| - 1]);
        TrimEndLower(s[..|s| - 1]);
      }
    }
  }

  /** Trimming and lowercasing commute: `s.trim().toLowerCase()` and
      `s.toLowerCase().trim()` are the same string. */
  lemma TrimLowerCommute(s: Str)
    ensures ToLower(Trim(s)) == Trim(ToLower(s))
  {
    TrimStartLower(s);
    TrimEndLower(TrimStart(s));
  }

  lemma {:induction false} TrimStartWhitespacePrefix(w: Str, s: Str)
    requires AllWhitespace(w)
    ensures TrimStart(w + s) == TrimStart(s)
    decreases |w|
  {
    if w != [] {
      assert (w + s)[0] == w[0] && IsWhitespace(w[0]);
      assert (w + s)[1..] == w[1..] + s;
      assert AllWhitespace(w[1..]) by {
        forall i | 0 <= i < |w| - 1 ensures IsWhitespace(w[1..][i]) {
          assert w[1..][i] == w[i + 1];
        }
      }
      TrimStartWhitespacePrefix(w[1..], s);
    } else {
      assert w + s == s;
    }
  }

  lemma {:induction false} TrimEndWhitespaceSuffix(s: Str, w: Str)
    requires AllWhitespace(w)
    ensures TrimEnd(s + w) == TrimEnd(s)
    decreases |w|
  {
    if w != [] {
      assert (s + w)[|s + w| - 1] == w[|w| - 1] && IsWhitespace(w[|w| - 1]);
      assert (s + w)[..|s + w| - 1] == s + w[..|w| - 1];
      assert AllWhitespace(w[..|w| - 1]) by {
        var v := w[..|w| - 1];
        forall i | 0 <= i < |v| ensures IsWhitespace(v[i]) {
          assert v[i] == w[i];
        }
      }
      TrimEndWhitespaceSuffix(s, w[..|w| - 1]);
    } else {
      assert s + w == s;
    }
  }

  /** A string is all whitespace exactly when its head is and its tail is. */
  lemma AllWhitespaceCons(s: Str)
    requires s != []
    ensures AllWhitespace(s) <==> IsWhitespace(s[0]) && AllWhitespace(s[1..])
  {
    if IsWhitespace(s[0]) && AllWhitespace(s[1..]) {
      forall i | 0 <= i < |s| ensures IsWhitespace(s[i]) {
        if i > 0 { assert s[i] == s[1..][i - 1]; }
      }
    }
  }

  /** `TrimStart` skips one leading whitespace unit. */
  lemma TrimStartSkip(s: Str)
    requires s != [] && IsWhitespace(s[0])
    ensures TrimStart(s) == TrimStart(s[1..])
  {
  }

  /** Nothing of an all-whitespace string survives `TrimStart`. */
  lemma TrimStartOfWhitespace(w: Str)
    requires AllWhitespace(w)
    ensures TrimStart(w) == []
  {
  }

  /** Appending whitespace after a string changes where `TrimStart` leaves it
      only by that whitespace, unless the string was all whitespace. */
  lemma {:induction false} TrimStartAppend(s: Str, w: Str)
    requires AllWhitespace(w)
    ensures TrimStart(s + w) == (if AllWhitespace(s) then [] else TrimStart(s) + w)
    decreases |s|
  {
    if s == [] {
      assert s + w == w;
      TrimStartOfWhitespace(w);
    } else if IsWhitespace(s[0]) {
      var sw := s + w;
      assert sw[0] == s[0];
      assert sw[1..] == s[1..] + w;
      TrimStartSkip(sw);
      TrimStartSkip(s);
      AllWhitespaceCons(s);
      TrimStartAppend(s[1..], w);
    } else {
      assert (s + w)[0] == s[0];
      AllWhitespaceCons(s);
    }
  }

  /** `trim()` is `TrimEnd` after `TrimStart`. */
  lemma TrimUnfold(s: Str)
    ensures Trim(s) == TrimEnd(TrimStart(s))
  {
  }

  /** Whitespace before and after a string does not change what `TrimStart`
      followed by `TrimEnd` leaves of it. */
  lemma TrimStartEndPadding(w1: Str, s: Str, w2: Str)
    requires AllWhitespace(w1) && AllWhitespace(w2)
    ensures TrimEnd(TrimStart(w1 + s + w2)) == TrimEnd(TrimStart(s))
  {
    TrimStartDropsPrefix(w1, s, w2);
    TrimAfterAppend(s, w2);
  }

  /** Leading whitespace before `s + w2` is gone after `TrimStart`. */
  lemma TrimStartDropsPrefix(w1: Str, s: Str, w2: Str)
    requires AllWhitespace(w1)
    ensures TrimStart(w1 + s + w2) == TrimStart(s + w2)
  {
    var sw := s + w2;
    assert w1 + s + w2 == w1 + sw;
    TrimStartWhitespacePrefix(w1, sw);
  }

  /** Trailing whitespace after `s` is gone after `TrimStart` and `TrimEnd`. */
  lemma TrimAfterAppend(s: Str, w2: Str)
    requires AllWhitespace(w2)
    ensures TrimEnd(TrimStart(s + w2)) == TrimEnd(TrimStart(s))
  {
    TrimStartAppend(s, w2);
    if AllWhitespace(s) {
      TrimStartOfWhitespace(s);
    } else {
      TrimEndWhitespaceSuffix(TrimStart(s), w2);
    }
  }

  /** Surrounding whitespace never survives `trim()`. */
  lemma TrimIgnoresPadding(w1: Str, s: Str, w2: Str)
    requires AllWhitespace(w1) && AllWhitespace(w2)
    ensures Trim(w1 + s + w2) == Trim(s)
  {
    TrimUnfold(w1 + s + w2);
    TrimUnfold(s);
    TrimStartEndPadding(w1, s, w2);
  }

  // ---------------------------------------------------------------------------
  // split(" ") and join(sep)
  // ---------------------------------------------------------------------------

  /** `s.split(" ")`: the parts between single spaces, empty parts included
      (a leading, trailing or doubled space yields an empty part). */
  function Split(s: Str): (parts: seq<Str>)
    ensures |parts| >= 1
    ensures forall k :: 0 <= k < |parts| ==> Space !in parts[k]
  {
    if s == [] then [[]]
    else
      var rest := Split(s[1..]);
      if s[0] == Space then [[]] + rest
      else [[s[0]] + rest[0]] + rest[1..]
  }

  /** `parts.join(sep)`. */
  function Join(parts: seq<Str>, sep: Str): Str
  {
    if |parts| == 0 then []
    else if |parts| == 1 then parts[0]
    else parts[0] + sep + Join(parts[1..], sep)
  }

  /** Splitting on a space and joining with a space gives the string back. */
  lemma {:induction false} SplitJoin(s: Str)
    ensures Join(Split(s), [Space]) == s
    decreases |s|
  {
    if s != [] {
      var rest := Split(s[1..]);
      SplitJoin(s[1..]);
      if s[0] == Space {
        assert Split(s) == [[]] + rest;
        assert ([[]] + rest)[1..] == rest;
      } else {
        var parts := [[s[0]] + rest[0]] + rest[1..];
        assert Split(s) == parts;
        if |rest| == 1 {
          assert Join(parts, [Space]) == [s[0]] + rest[0];
        } else {
          assert parts[1..] == rest[1..];
          assert Join(rest, [Space]) == rest[0] + [Space] + Join(rest[1..], [Space]);
        }
        assert [s[0]] + s[1..] == s;
      }
    }
  }

  /** `substring(0, n)`. */
  function Take(s: Str, n: nat): (r: Str)
    ensures |r| == if n < |s| then n else |s|
    ensures r <= s
  {
    if n < |s| then s[..n] else s
  }

  // ---------------------------------------------------------------------------
  // Number-to-string for non-negative integers
  // ---------------------------------------------------------------------------

  predicate IsDigit(c: CodeUnit) { 0x30 <= c <= 0x39 }

  /** The decimal text JavaScript gives a non-negative integer (`${n}`). */
  function DecimalString(n: nat): (r: Str)
    ensures |r| >= 1
    ensures forall i :: 0 <= i < |r| ==> IsDigit(r[i])
    ensures |r| > 1 ==> r[0] != 0x30
  {
    if n < 10 then [0x30 + n] else DecimalString(n / 10) + [0x30 + n % 10]
  }

  /** The number a string of digits denotes. */
  function DecimalValue(d: Str): nat
    requires forall i :: 0 <= i < |d| ==> IsDigit(d[i])
  {
    if d == [] then 0
    else
      assert IsDigit(d[|d| - 1]);
      10 * DecimalValue(d[..|d| - 1]) + (d[|d| - 1] as int - 0x30)
  }

  /** Reading back the decimal text of `n` gives `n`. */
  lemma {:induction false} DecimalRoundTrip(n: nat)
    ensures DecimalValue(DecimalString(n)) == n
    decreases n
  {
    if n >= 10 {
      DecimalRoundTrip(n / 10);
      var d := DecimalString(n);
      assert d[..|d| - 1] == DecimalString(n / 10);
    }
  }
}
