/** The JavaScript string primitives the models use: `\s` and `trim`, ASCII
    `toLowerCase`, `\d`, `parseInt(s, 10)`, `Number.prototype.toString` and
    `padStart`. Strings are sequences of code points. */
module JsText {

  /** ECMAScript WhiteSpace and LineTerminator code points: what `\s` matches
      and what `String.prototype.trim` strips. */
  predicate IsWhitespace(c: char) {
    c == '\t' || c == '\n' || c == '\U{000B}' || c == '\U{000C}' || c == '\r' || c == ' '
    || c == '\U{00A0}' || c == '\U{1680}' || ('\U{2000}' <= c <= '\U{200A}')
    || c == '\U{2028}' || c == '\U{2029}' || c == '\U{202F}' || c == '\U{205F}'
    || c == '\U{3000}' || c == '\U{FEFF}'
  }

  predicate AllWhitespace(s: string) {
    forall k :: 0 <= k < |s| ==> IsWhitespace(s[k])
  }

  /** `\d` without the `u` flag: the ASCII digits. */
  predicate IsDigit(c: char) {
    '0' <= c <= '9'
  }

  predicate AllDigits(s: string) {
    forall k :: 0 <= k < |s| ==> IsDigit(s[k])
  }

  // ---------------------------------------------------------------- trim

  function TrimStart(s: string): (r: string)
    ensures |r| <= |s| && r == s[|s| - |r|..]
    ensures r == [] || !IsWhitespace(r[0])
    ensures AllWhitespace(s[..|s| - |r|])
  {
    if s != [] && IsWhitespace(s[0]) then
      var r := TrimStart(s[1..]);
      TrimStartStep(s, r);
      r
    else s
  }

  function TrimEnd(s: string): (r: string)
    ensures |r| <= |s| && r == s[..|r|]
    ensures r == [] || !IsWhitespace(r[|r| - 1])
    ensures AllWhitespace(s[|r|..])
  {
    if s != [] && IsWhitespace(s[|s| - 1]) then
      var r := TrimEnd(s[..|s| - 1]);
      TrimEndStep(s, r);
      r
    else s
  }

  /** A leading whitespace character joins the whitespace `TrimStart` strips from the rest. */
  lemma TrimStartStep(s: string, r: string)
    requires s != [] && IsWhitespace(s[0])
    requires |r| <= |s| - 1 && r == s[1..][|s| - 1 - |r|..]
    requires AllWhitespace(s[1..][..|s| - 1 - |r|])
    ensures r == s[|s| - |r|..] && AllWhitespace(s[..|s| - |r|])
  {
    assert s[..|s| - |r|] == [s[0]] + s[1..][..|s| - 1 - |r|];
  }

  /** A trailing whitespace character joins the whitespace `TrimEnd` strips from the rest. */
  lemma TrimEndStep(s: string, r: string)
    requires s != [] && IsWhitespace(s[|s| - 1])
    requires |r| <= |s| - 1 && r == s[..|s| - 1][..|r|]
    requires AllWhitespace(s[..|s| - 1][|r|..])
    ensures r == s[..|r|] && AllWhitespace(s[|r|..])
  {
    assert s[|r|..] == s[..|s| - 1][|r|..] + [s[|s| - 1]];
  }

  /** `String.prototype.trim`: the text left after stripping whitespace from both ends. */
  function Trim(s: string): (r: string)
    ensures |r| <= |s|
    ensures r == [] || (!IsWhitespace(r[0]) && !IsWhitespace(r[|r| - 1]))
  {
    TrimEnd(TrimStart(s))
  }

  /** `r` sits in `s` at position `i`, between an all-whitespace prefix and an all-whitespace
      suffix. */
  predicate CutOutOfWhitespace(s: string, r: string, i: int) {
    0 <= i <= |s| - |r| && s[i..i + |r|] == r && AllWhitespace(s[..i]) && AllWhitespace(s[i + |r|..])
  }

  /** `trim` cuts the text out of its surroundings: the result sits in the input, at the
      position where `TrimStart` stopped, between an all-whitespace prefix and an
      all-whitespace suffix. With the `Trim` contract (no whitespace at either end of the
      result) this pins the result down. */
  lemma TrimStripsWhitespace(s: string)
    ensures CutOutOfWhitespace(s, Trim(s), |s| - |TrimStart(s)|)
  {
    var t := TrimStart(s);
    var r := TrimEnd(t);
    assert r == Trim(s);
    CutOutBetweenWhitespace(s, t, r);
  }

  /** A prefix `r` of a suffix `t` of `s`, with whitespace before `t` and after `r`, is cut out
      of `s` where `t` starts. */
  lemma CutOutBetweenWhitespace(s: string, t: string, r: string)
    requires |t| <= |s| && t == s[|s| - |t|..] && AllWhitespace(s[..|s| - |t|])
    requires |r| <= |t| && r == t[..|r|] && AllWhitespace(t[|r|..])
    ensures CutOutOfWhitespace(s, r, |s| - |t|)
  {
    var i := |s| - |t|;
    assert s[i..i + |r|] == r && s[i + |r|..] == t[|r|..];
  }

  lemma {:induction false} TrimStartSkipsWhitespace(a: string, x: string)
    requires AllWhitespace(a)
    ensures TrimStart(a + x) == TrimStart(x)
  {
    if a != [] {
      var ax := a + x;
      assert ax[0] == a[0] && IsWhitespace(ax[0]);
      assert ax[1..] == a[1..] + x;
      assert TrimStart(ax) == TrimStart(ax[1..]);
      TrimStartSkipsWhitespace(a[1..], x);
    } else {
      assert a + x == x;
    }
  }

  lemma {:induction false} TrimEndSkipsWhitespace(x: string, b: string)
    requires AllWhitespace(b)
    ensures TrimEnd(x + b) == TrimEnd(x)
  {
    if b != [] {
      assert (x + b)[..|x + b| - 1] == x + b[..|b| - 1];
      TrimEndSkipsWhitespace(x, b[..|b| - 1]);
    } else {
      assert x + b == x;
    }
  }

  /** Trim removes exactly the surrounding whitespace: any text that neither
      starts nor ends with whitespace, padded with whitespace on both sides,
      trims back to itself. */
  lemma TrimOfPadded(a: string, m: string, b: string)
    requires AllWhitespace(a) && AllWhitespace(b)
    requires m == [] || (!IsWhitespace(m[0]) && !IsWhitespace(m[|m| - 1]))
    ensures Trim(a + m + b) == m
  {
    assert a + m + b == a + (m + b);
    TrimStartSkipsWhitespace(a, m + b);
    if m == [] {
      assert m + b == b + [];
      TrimStartSkipsWhitespace(b, []);
      assert TrimStart(a + m + b) == [];
    } else {
      assert (m + b)[0] == m[0];
      assert TrimStart(a + m + b) == m + b;
      TrimEndSkipsWhitespace(m, b);
    }
  }

  /** A text that neither starts nor ends with whitespace is its own trim. */
  lemma TrimOfTrimmed(m: string)
    requires m == [] || (!IsWhitespace(m[0]) && !IsWhitespace(m[|m| - 1]))
    ensures Trim(m) == m
  {
    TrimOfPadded([], m, []);
    assert [] + m + [] == m;
  }

  // ---------------------------------------------------------------- case

  /** `toLowerCase` restricted to ASCII: `A`–`Z` become `a`–`z`, every other code point is kept. */
  function ToLowerChar(c: char): (d: char)
  {
    if 'A' <= c <= 'Z' then (c as int + 32) as char else c
  }

  function ToLower(s: string): (r: string)
    ensures |r| == |s|
    ensures forall k :: 0 <= k < |s| ==> r[k] == ToLowerChar(s[k])
  {
    seq(|s|, k requires 0 <= k < |s| => ToLowerChar(s[k]))
  }

  /** Lower-casing leaves a text without ASCII capitals unchanged. */
  lemma ToLowerOfLower(s: string)
    requires forall k :: 0 <= k < |s| ==> !('A' <= s[k] <= 'Z')
    ensures ToLower(s) == s
  {
  }

  // ---------------------------------------------------------------- numbers

  function DigitValue(c: char): (v: nat)
    requires IsDigit(c)
    ensures v < 10
  {
    c as int - '0' as int
  }

  function DigitChar(v: nat): (c: char)
    requires v < 10
    ensures IsDigit(c) && DigitValue(c) == v
  {
    ('0' as int + v) as char
  }

  /** `parseInt(s, 10)` (and `Number(s)`) of a text made only of ASCII digits. */
  function DecimalValue(s: string): (v: nat)
    requires AllDigits(s)
  {
    if s == [] then 0 else DecimalValue(s[..|s| - 1]) * 10 + DigitValue(s[|s| - 1])
  }

  /** `Number.prototype.toString()` of a non-negative integer. */
  function NatToDecimal(n: nat): string {
    if n < 10 then [DigitChar(n)] else NatToDecimal(n / 10) + [DigitChar(n % 10)]
  }

  /** `NatToDecimal` writes the decimal digits of `n`, without a leading zero, and reading
      them back gives `n`. */
  lemma {:induction false} NatToDecimalDigits(n: nat)
    ensures var r := NatToDecimal(n);
      && r != [] && AllDigits(r) && DecimalValue(r) == n
      && (|r| > 1 ==> r[0] != '0')
      && (n < 10 <==> |r| == 1)
  {
    if n >= 10 {
      NatToDecimalDigits(n / 10);
      var r := NatToDecimal(n);
      assert r[..|r| - 1] == NatToDecimal(n / 10);
    }
  }

  /** `s.padStart(width, fill)`. */
  function PadStart(s: string, width: nat, fill: char): (r: string)
    ensures |r| == if |s| >= width then |s| else width
    ensures r[|r| - |s|..] == s
    ensures forall k :: 0 <= k < |r| - |s| ==> r[k] == fill
  {
    if |s| >= width then s else seq(width - |s|, _ => fill) + s
  }

  lemma TwoDigitsValue(d: string)
    requires |d| == 2 && AllDigits(d)
    ensures DecimalValue(d) == DigitValue(d[0]) * 10 + DigitValue(d[1])
  {
    assert d[..1][..0] == [];
    assert DecimalValue(d[..1]) == DigitValue(d[0]);
  }

  lemma DivModTen(a: nat, b: nat)
    requires b < 10
    ensures (a * 10 + b) / 10 == a && (a * 10 + b) % 10 == b
  {
  }

  /** Two digits read as a number and written back with `padStart(2, '0')` give the same two digits. */
  lemma TwoDigitsRoundTrip(d: string)
    requires |d| == 2 && AllDigits(d)
    ensures PadStart(NatToDecimal(DecimalValue(d)), 2, '0') == d
  {
    var a, b := DigitValue(d[0]), DigitValue(d[1]);
    TwoDigitsValue(d);
    DigitCharOfValue(d[0]);
    DigitCharOfValue(d[1]);
    var v := a * 10 + b;
    if a == 0 {
      assert NatToDecimal(v) == [d[1]];
      assert PadStart([d[1]], 2, '0') == ['0', d[1]];
    } else {
      NatToDecimalOfTwoDigits(a, b);
    }
    assert d == [d[0], d[1]];
  }

  /** `10 * a + b` with `a` a non-zero digit is written as the two digits `a` and `b`. */
  lemma NatToDecimalOfTwoDigits(a: nat, b: nat)
    requires 1 <= a < 10 && b < 10
    ensures NatToDecimal(a * 10 + b) == [DigitChar(a), DigitChar(b)]
  {
    DivModTen(a, b);
    assert NatToDecimal(a * 10 + b) == NatToDecimal(a) + [DigitChar(b)];
  }

  lemma DigitCharOfValue(c: char)
    requires IsDigit(c)
    ensures DigitChar(DigitValue(c)) == c
  {
  }

  /** A number below 100 written with `padStart(2, '0')` is two digits that read back as it. */
  lemma {:induction false} PaddedBelowHundred(n: nat)
    requires n < 100
    ensures var r := PadStart(NatToDecimal(n), 2, '0');
      |r| == 2 && AllDigits(r) && DecimalValue(r) == n
  {
    NatToDecimalDigits(n);
    var s := NatToDecimal(n);
    var r := PadStart(s, 2, '0');
    if n < 10 {
      assert r == ['0', s[0]];
      assert r[..1] == ['0'] && r[..1][..0] == [];
    } else {
      NatToDecimalDigits(n / 10);
      assert r == s;
    }
  }
}
