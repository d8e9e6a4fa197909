/**
 * The PHP string primitives the library is built from, over byte strings.
 *
 * A PHP string is a sequence of bytes; here it is a `string` whose every
 * `char` stands for one byte.  Case mapping is ASCII-only, as PHP 8's
 * `strtolower`/`strtoupper`/`ucfirst` are.
 */
module Str {
  import opened Wrappers

  /** The characters `trim()` strips when given no character list. */
  const TRIM_CHARS: set<char> := {' ', '\t', '\n', '\r', '\0', '\U{000B}'}

  /** The characters PCRE's `\s` and PHP's numeric-string parser treat as white space. */
  const SPACE_CHARS: set<char> := {' ', '\t', '\n', '\r', '\U{000B}', '\U{000C}'}

  // ---------------------------------------------------------------------------
  // trimming

  /** `ltrim($s, $cs)`: drops the longest prefix made of characters in `cs`. */
  function TrimLeft(s: string, cs: set<char>): (r: string)
    ensures |r| <= |s| && r == s[|s| - |r|..]
    ensures |r| > 0 ==> r[0] !in cs
    ensures forall i :: 0 <= i < |s| - |r| ==> s[i] in cs
    decreases |s|
  {
    if |s| > 0 && s[0] in cs then TrimLeft(s[1..], cs) else s
  }

  /** `rtrim($s, $cs)`: drops the longest suffix made of characters in `cs`. */
  function TrimRight(s: string, cs: set<char>): (r: string)
    ensures |r| <= |s| && r == s[..|r|]
    ensures |r| > 0 ==> r[|r| - 1] !in cs
    ensures forall i :: |r| <= i < |s| ==> s[i] in cs
    decreases |s|
  {
    if |s| > 0 && s[|s| - 1] in cs then TrimRight(s[..|s| - 1], cs) else s
  }

  /** `trim($s, $cs)`. */
  function TrimBy(s: string, cs: set<char>): string {
    TrimRight(TrimLeft(s, cs), cs)
  }

  /** `trim($s)` with the default character list. */
  function Trim(s: string): string {
    TrimBy(s, TRIM_CHARS)
  }

  /** The trimmed string is a factor of the input with no strippable character at either end. */
  lemma TrimShape(s: string, cs: set<char>)
    ensures var r := TrimBy(s, cs);
            var k := |s| - |TrimLeft(s, cs)|;
            && k + |r| <= |s|
            && r == s[k..k + |r|]
            && (|r| > 0 ==> r[0] !in cs && r[|r| - 1] !in cs)
  {
  }

  /** What trimming leaves starts and ends with a kept character. */
  lemma TrimEnds(s: string, cs: set<char>)
    ensures var r := TrimBy(s, cs);
            |r| > 0 ==> r[0] !in cs && r[|r| - 1] !in cs
  {
    TrimShape(s, cs);
  }

  /** A string with no strippable character at either end is left alone. */
  lemma TrimNoop(s: string, cs: set<char>)
    requires |s| > 0 ==> s[0] !in cs && s[|s| - 1] !in cs
    ensures TrimBy(s, cs) == s
  {
  }

  /** Trimming twice trims no more than once. */
  lemma TrimIdempotent(s: string)
    ensures Trim(Trim(s)) == Trim(s)
  {
    TrimShape(s, TRIM_CHARS);
    TrimNoop(Trim(s), TRIM_CHARS);
  }

  // ---------------------------------------------------------------------------
  // ASCII case mapping

  function LowerChar(c: char): char {
    if 'A' <= c <= 'Z' then (c as int + 32) as char else c
  }

  function UpperChar(c: char): char {
    if 'a' <= c <= 'z' then (c as int - 32) as char else c
  }

  /** `strtolower`. */
  function Lower(s: string): (r: string)
    ensures |r| == |s|
  {
    seq(|s|, i requires 0 <= i < |s| => LowerChar(s[i]))
  }

  /** `ucfirst`. */
  function UcFirst(s: string): (r: string)
    ensures |r| == |s|
  {
    if |s| == 0 then s else [UpperChar(s[0])] + s[1..]
  }

  lemma LowerIdempotent(s: string)
    ensures Lower(Lower(s)) == Lower(s)
  {
  }

  // ---------------------------------------------------------------------------
  // searching, splitting and joining

  /** `str_replace([c1, c2, ...], '', $s)` for single-character needles. */
  function Remove(s: string, cs: set<char>): (r: string)
    ensures |r| <= |s|
    ensures forall i :: 0 <= i < |r| ==> r[i] !in cs
    ensures forall c :: c !in cs && c !in s ==> c !in r
  {
    if |s| == 0 then "" else (if s[0] in cs then "" else [s[0]]) + Remove(s[1..], cs)
  }

  /** A string holding none of the characters is unchanged by `Remove`. */
  lemma {:induction false} RemoveNoop(s: string, cs: set<char>)
    requires forall i :: 0 <= i < |s| ==> s[i] !in cs
    ensures Remove(s, cs) == s
  {
    if |s| > 0 {
      RemoveNoop(s[1..], cs);
    }
  }

  /** Position of the first `d` in `s`, or `|s|` when there is none. */
  function FirstIndex(s: string, d: char): (i: nat)
    ensures i <= |s|
    ensures i < |s| ==> s[i] == d
    ensures forall j :: 0 <= j < i ==> s[j] != d
  {
    if |s| == 0 then 0 else if s[0] == d then 0 else 1 + FirstIndex(s[1..], d)
  }

  lemma FirstIndexOfJoin(a: string, b: string, d: char)
    requires d !in a
    ensures FirstIndex(a + [d] + b, d) == |a|
  {
    var s := a + [d] + b;
    var i := FirstIndex(s, d);
    assert s[|a|] == d;
    assert forall j :: 0 <= j < |a| ==> s[j] == a[j];
  }

  /** `explode($d, $s)` for a one-character delimiter. */
  function Split(s: string, d: char): (parts: seq<string>)
    ensures |parts| >= 1
    ensures forall k :: 0 <= k < |parts| ==> d !in parts[k]
    decreases |s|
  {
    var i := FirstIndex(s, d);
    if i == |s| then [s] else [s[..i]] + Split(s[i + 1..], d)
  }

  /** `implode($sep, $parts)`. */
  function Join(parts: seq<string>, sep: string): string {
    if |parts| == 0 then ""
    else if |parts| == 1 then parts[0]
    else parts[0] + sep + Join(parts[1..], sep)
  }

  lemma JoinCons(p: string, ps: seq<string>, sep: string)
    requires |ps| >= 1
    ensures Join([p] + ps, sep) == p + sep + Join(ps, sep)
  {
    assert ([p] + ps)[1..] == ps;
  }

  lemma JoinAppend(ps: seq<string>, p: string, sep: string)
    requires |ps| >= 1
    ensures Join(ps + [p], sep) == Join(ps, sep) + sep + p
    decreases |ps|
  {
    if |ps| == 1 {
      assert ps + [p] == [ps[0]] + [p];
    } else {
      assert ps + [p] == [ps[0]] + (ps[1..] + [p]);
      JoinCons(ps[0], ps[1..] + [p], sep);
      JoinAppend(ps[1..], p, sep);
      JoinCons(ps[0], ps[1..], sep);
      assert [ps[0]] + ps[1..] == ps;
    }
  }

  /** Joining the pieces of `explode` with the delimiter gives back the input. */
  lemma {:induction false} JoinSplit(s: string, d: char)
    ensures Join(Split(s, d), [d]) == s
    decreases |s|
  {
    var i := FirstIndex(s, d);
    if i < |s| {
      var rest := Split(s[i + 1..], d);
      JoinSplit(s[i + 1..], d);
      JoinCons(s[..i], rest, [d]);
      assert s == s[..i] + [d] + s[i + 1..];
    }
  }

  /** Splitting a join of delimiter-free pieces gives back the pieces. */
  lemma {:induction false} SplitJoin(parts: seq<string>, d: char)
    requires |parts| >= 1
    requires forall k :: 0 <= k < |parts| ==> d !in parts[k]
    ensures Split(Join(parts, [d]), d) == parts
    decreases |parts|
  {
    if |parts| == 1 {
      assert FirstIndex(parts[0], d) == |parts[0]|;
    } else {
      var rest := Join(parts[1..], [d]);
      calc {
        Split(Join(parts, [d]), d);
        { assert Join(parts, [d]) == parts[0] + [d] + rest; }
        Split(parts[0] + [d] + rest, d);
        { SplitCons(parts[0], rest, d); }
        [parts[0]] + Split(rest, d);
        { SplitJoin(parts[1..], d); }
        [parts[0]] + parts[1..];
        parts;
      }
    }
  }

  /** `explode` cuts at the first delimiter and carries on after it. */
  lemma SplitCons(a: string, b: string, d: char)
    requires d !in a
    ensures Split(a + [d] + b, d) == [a] + Split(b, d)
  {
    var s := a + [d] + b;
    FirstIndexOfJoin(a, b, d);
    assert s[..|a|] == a;
    assert s[|a| + 1..] == b;
  }

  /** A string without the delimiter is a single piece. */
  lemma SplitNoDelim(a: string, d: char)
    requires d !in a
    ensures Split(a, d) == [a]
  {
  }

  /** The first piece of `explode` ends at the first delimiter. */
  lemma SplitHeadOf(a: string, b: string, d: char)
    requires d !in a
    ensures Split(a + [d] + b, d)[0] == a
  {
    FirstIndexOfJoin(a, b, d);
    assert (a + [d] + b)[..|a|] == a;
  }

  /** Only an empty list, or a list of one empty piece, joins to the empty string. */
  lemma JoinEmpty(parts: seq<string>, sep: string)
    requires |sep| > 0
    requires Join(parts, sep) == ""
    ensures |parts| == 0 || parts == [""]
  {
  }

  /** `explode($d, $s, 2)`: the text before the first `d`, and the rest after it if there is a `d`. */
  function SplitFirst(s: string, d: char): (r: (string, Option<string>))
    ensures r.1.None? <==> d !in s
    ensures r.1.None? ==> r.0 == s
    ensures r.1.Some? ==> s == r.0 + [d] + r.1.value && d !in r.0
  {
    var i := FirstIndex(s, d);
    if i == |s| then (s, None)
    else
      assert s == s[..i] + [d] + s[i + 1..];
      (s[..i], Some(s[i + 1..]))
  }

  /** The first piece of `explode` is the head of `explode(..., 2)`. */
  lemma SplitHead(s: string, d: char)
    ensures Split(s, d)[0] == SplitFirst(s, d).0
  {
  }

  /** Every piece of `explode` is a factor of its input. */
  lemma {:induction false} SplitPiecesShorter(s: string, d: char)
    ensures forall k :: 0 <= k < |Split(s, d)| ==> |Split(s, d)[k]| <= |s|
    decreases |s|
  {
    var i := FirstIndex(s, d);
    if i < |s| {
      SplitPiecesShorter(s[i + 1..], d);
    }
  }

  // ---------------------------------------------------------------------------
  // decimal numbers

  predicate IsDigit(c: char) {
    '0' <= c <= '9'
  }

  predicate AllDigits(s: string) {
    forall i :: 0 <= i < |s| ==> IsDigit(s[i])
  }

  function DigitValue(c: char): nat
    requires IsDigit(c)
  {
    c as int - '0' as int
  }

  function DigitChar(d: nat): (c: char)
    requires d < 10
    ensures IsDigit(c) && DigitValue(c) == d
  {
    ('0' as int + d) as char
  }

  /** The value of a run of decimal digits (empty run: 0). */
  function DigitsValue(s: string): nat
    requires AllDigits(s)
  {
    if |s| == 0 then 0 else DigitsValue(s[..|s| - 1]) * 10 + DigitValue(s[|s| - 1])
  }

  /** Decimal rendering of a natural number, as `%d`/`(string)` print it. */
  function NatToString(n: nat): (r: string)
    ensures |r| >= 1 && AllDigits(r)
    ensures DigitsValue(r) == n
    ensures |r| > 1 ==> r[0] != '0'
    decreases n
  {
    if n < 10 then [DigitChar(n)]
    else
      var p := NatToString(n / 10);
      var r := p + [DigitChar(n % 10)];
      assert r[..|r| - 1] == p;
      r
  }

  /** Decimal rendering of an integer, with a leading '-' when negative. */
  function IntToString(i: int): (r: string)
    ensures |r| >= 1
    ensures i >= 0 ==> r == NatToString(i)
    ensures i < 0 ==> r == "-" + NatToString(-i)
  {
    if i < 0 then "-" + NatToString(-i) else NatToString(i)
  }

  /** End of the run of characters from `cs` that starts at `i`. */
  function SkipSet(s: string, i: nat, cs: set<char>): (j: nat)
    requires i <= |s|
    ensures i <= j <= |s|
    ensures forall k :: i <= k < j ==> s[k] in cs
    ensures j < |s| ==> s[j] !in cs
    decreases |s| - i
  {
    if i < |s| && s[i] in cs then SkipSet(s, i + 1, cs) else i
  }

  /** End of the run of decimal digits that starts at `i`. */
  function SkipDigits(s: string, i: nat): (j: nat)
    requires i <= |s|
    ensures i <= j <= |s|
    ensures AllDigits(s[i..j])
    ensures j < |s| ==> !IsDigit(s[j])
    decreases |s| - i
  {
    if i < |s| && IsDigit(s[i]) then SkipDigits(s, i + 1) else i
  }

  /** Ten to the power `n`. */
  function Pow10(n: nat): (r: nat)
    ensures r >= 1
  {
    if n == 0 then 1 else 10 * Pow10(n - 1)
  }

  /** The decimal number `mantissa * 10^exponent`, truncated toward zero one digit at a time. */
  function Scaled(mantissa: nat, exponent: int): nat
    decreases if exponent >= 0 then exponent else -exponent
  {
    if exponent == 0 then mantissa
    else if exponent > 0 then Scaled(mantissa * 10, exponent - 1)
    else Scaled(mantissa / 10, exponent + 1)
  }

  /** The exponent "e" or "E", an optional sign and digits, when it starts at `f`; 0 otherwise. */
  function ExponentAt(s: string, f: nat): int
    requires f <= |s|
  {
    if f < |s| && (s[f] == 'e' || s[f] == 'E') then
      var g := if f + 1 < |s| && (s[f + 1] == '-' || s[f + 1] == '+') then f + 2 else f + 1;
      var h := SkipDigits(s, g);
      if h == g then 0
      else if s[f + 1] == '-' then -(DigitsValue(s[g..h]) as int)
      else DigitsValue(s[g..h])
    else 0
  }

  /**
   * The value, without sign, of the number that starts at `j`: digits, an
   * optional '.' and fraction digits (a '.' needs a digit on one side), then
   * an optional exponent; 0 when there are no digits.
   */
  function UnsignedAt(s: string, j: nat): nat
    requires j <= |s|
  {
    var k := SkipDigits(s, j);
    if k < |s| && s[k] == '.' && (k > j || (k + 1 < |s| && IsDigit(s[k + 1]))) then
      var f := SkipDigits(s, k + 1);
      Scaled(DigitsValue(s[j..k] + s[k + 1..f]), ExponentAt(s, f) - (f - k - 1))
    else if k == j then 0
    else Scaled(DigitsValue(s[j..k]), ExponentAt(s, k))
  }

  /**
   * `(int)$s`: leading white space, an optional sign, then the longest
   * prefix that reads as a decimal number, with fraction and exponent,
   * truncated toward zero; anything after is ignored and no digits give 0.
   * A float `(int)` casts is read from its decimal text the same way.
   */
  function IntCast(s: string): int {
    var i := SkipSet(s, 0, SPACE_CHARS);
    var j := if i < |s| && (s[i] == '-' || s[i] == '+') then i + 1 else i;
    var v: int := UnsignedAt(s, j);
    if i < |s| && s[i] == '-' then -v else v
  }

  /** Digits that run to the end of the string are read as a plain integer. */
  lemma UnsignedDigits(s: string, j: nat)
    requires j <= |s| && SkipDigits(s, j) == |s|
    ensures UnsignedAt(s, j) == DigitsValue(s[j..])
  {
    assert s[j..|s|] == s[j..];
  }

  /** `(int)` reads back the decimal rendering of any natural number. */
  lemma IntCastNat(n: nat)
    ensures IntCast(NatToString(n)) == n
  {
    var s := NatToString(n);
    assert SkipSet(s, 0, SPACE_CHARS) == 0;
    assert SkipDigits(s, 0) == |s|;
    UnsignedDigits(s, 0);
    assert s[0..] == s;
  }

  /** `(int)` reads back the decimal rendering of any integer. */
  lemma IntCastInt(i: int)
    ensures IntCast(IntToString(i)) == i
  {
    if i >= 0 {
      IntCastNat(i);
    } else {
      var s := IntToString(i);
      var d := NatToString(-i);
      assert s[0] == '-';
      assert SkipSet(s, 0, SPACE_CHARS) == 0;
      assert s[1..] == d;
      assert SkipDigits(s, 1) == |s|;
      UnsignedDigits(s, 1);
    }
  }

  /** A positive exponent multiplies by its power of ten. */
  lemma {:induction false} ScaledUp(m: nat, e: nat)
    ensures Scaled(m, e) == m * Pow10(e)
    decreases e
  {
    if e > 0 {
      ScaledUp(m * 10, e - 1);
      assert m * 10 * Pow10(e - 1) == m * (10 * Pow10(e - 1));
    }
  }

  /** A negative exponent divides by its power of ten, rounding down. */
  lemma {:induction false} ScaledDown(m: nat, e: nat)
    ensures Scaled(m, -(e as int)) == m / Pow10(e)
    decreases e
  {
    if e > 0 {
      ScaledDown(m / 10, e - 1);
      DivDiv(m, 10, Pow10(e - 1));
    }
  }

  lemma DivDiv(m: nat, a: nat, b: nat)
    requires a > 0 && b > 0
    ensures m / a / b == m / (a * b)
  {
    var q, r := m / a, m % a;
    var q2, r2 := q / b, q % b;
    DivMod(m, a);
    DivMod(q, b);
    Regroup(q2, r2, a, b, r);
    RemBound(r2, b, a, r);
    DivUnique(m, a * b, q2, r2 * a + r);
  }

  lemma DivMod(m: nat, d: nat)
    requires d > 0
    ensures m == (m / d) * d + m % d && m % d < d
  {
  }

  lemma Regroup(q2: nat, r2: nat, a: nat, b: nat, r: nat)
    ensures (q2 * b + r2) * a + r == q2 * (a * b) + (r2 * a + r)
  {
    assert (q2 * b + r2) * a == q2 * b * a + r2 * a;
    assert q2 * b * a == q2 * (a * b);
  }

  lemma RemBound(r2: nat, b: nat, a: nat, r: nat)
    requires r2 < b && r < a
    ensures r2 * a + r < a * b
  {
    MulLe(r2, b - 1, a);
    assert (b - 1) * a == a * b - a;
  }

  lemma MulLe(x: nat, y: nat, a: nat)
    requires x <= y
    ensures x * a <= y * a
  {
  }

  /** The quotient is the one that leaves a remainder below the divisor. */
  lemma DivUnique(m: nat, d: nat, q: nat, r: nat)
    requires d > 0 && m == q * d + r && r < d
    ensures m / d == q
  {
    var q', r' := m / d, m % d;
    assert m == q' * d + r';
    MulStep(q, q', d);
    MulStep(q', q, d);
  }

  /** Multiples of `d` are at least `d` apart. */
  lemma MulStep(x: nat, y: nat, d: nat)
    ensures x < y ==> x * d + d <= y * d
  {
    if x < y {
      MulLe(x + 1, y, d);
      assert (x + 1) * d == x * d + d;
    }
  }

  /** The value of digits followed by more digits. */
  lemma {:induction false} DigitsValueAppend(a: string, d: string)
    requires AllDigits(a) && AllDigits(d)
    ensures AllDigits(a + d)
    ensures DigitsValue(a + d) == DigitsValue(a) * Pow10(|d|) + DigitsValue(d)
    ensures DigitsValue(d) < Pow10(|d|)
    decreases |d|
  {
    if |d| > 0 {
      var d' := d[..|d| - 1];
      DigitsValueAppend(a, d');
      assert (a + d)[..|a + d| - 1] == a + d';
      ShiftDigit(DigitsValue(a), Pow10(|d'|), DigitsValue(d'), DigitValue(d[|d| - 1]));
    } else {
      assert a + d == a;
    }
  }

  /** One more digit `c` after `w < p`: the shifted value and its bound. */
  lemma ShiftDigit(v: nat, p: nat, w: nat, c: nat)
    requires w < p && c < 10
    ensures (v * p + w) * 10 + c == v * (10 * p) + (w * 10 + c)
    ensures w * 10 + c < 10 * p
  {
    assert (v * p + w) * 10 == v * p * 10 + w * 10;
    assert v * p * 10 == v * (10 * p);
    MulLe(w + 1, p, 10);
  }

  /** `SkipDigits` stops at the first character after a run of digits. */
  lemma {:induction false} SkipDigitsRun(s: string, i: nat, j: nat)
    requires i <= j <= |s| && (forall k :: i <= k < j ==> IsDigit(s[k]))
    requires j < |s| ==> !IsDigit(s[j])
    ensures SkipDigits(s, i) == j
    decreases j - i
  {
    if i < j {
      SkipDigitsRun(s, i + 1, j);
    }
  }

  /** A number with neither fraction nor dot: its digits, then whatever exponent follows. */
  lemma IntCastPlain(s: string, k: nat)
    requires 0 < k < |s| && AllDigits(s[..k]) && !IsDigit(s[k]) && s[k] != '.'
    ensures IntCast(s) == Scaled(DigitsValue(s[..k]), ExponentAt(s, k))
  {
    assert IsDigit(s[..k][0]);
    assert SkipSet(s, 0, SPACE_CHARS) == 0;
    assert forall i :: 0 <= i < k ==> IsDigit(s[..k][i]);
    SkipDigitsRun(s, 0, k);
    assert s[0..k] == s[..k];
  }

  /** "e" at `f` followed by digits to the end: the exponent is their value. */
  lemma ExponentPlus(s: string, f: nat)
    requires f + 1 < |s| && s[f] == 'e' && AllDigits(s[f + 1..])
    ensures ExponentAt(s, f) == DigitsValue(s[f + 1..])
  {
    assert forall i :: f + 1 <= i < |s| ==> IsDigit(s[i]) by {
      forall i | f + 1 <= i < |s| ensures IsDigit(s[i]) {
        assert s[i] == s[f + 1..][i - (f + 1)];
      }
    }
    SkipDigitsRun(s, f + 1, |s|);
    assert s[f + 1..|s|] == s[f + 1..];
  }

  /** "e-" at `f` followed by digits to the end: the exponent is minus their value. */
  lemma ExponentMinus(s: string, f: nat)
    requires f + 2 < |s| && s[f] == 'e' && s[f + 1] == '-' && AllDigits(s[f + 2..])
    ensures ExponentAt(s, f) == -(DigitsValue(s[f + 2..]) as int)
  {
    assert forall i :: f + 2 <= i < |s| ==> IsDigit(s[i]) by {
      forall i | f + 2 <= i < |s| ensures IsDigit(s[i]) {
        assert s[i] == s[f + 2..][i - (f + 2)];
      }
    }
    SkipDigitsRun(s, f + 2, |s|);
    assert s[f + 2..|s|] == s[f + 2..];
  }

  /** Digits, "e" and digits to the end: the mantissa scaled up by the exponent. */
  lemma IntCastPlusParts(s: string, k: nat)
    requires 0 < k && k + 1 < |s| && AllDigits(s[..k]) && s[k] == 'e' && AllDigits(s[k + 1..])
    ensures IntCast(s) == Scaled(DigitsValue(s[..k]), DigitsValue(s[k + 1..]))
  {
    IntCastPlain(s, k);
    var x := ExponentAt(s, k);
    assert x == DigitsValue(s[k + 1..]) by {
      ExponentPlus(s, k);
    }
  }

  /** Digits, "e-" and digits to the end: the mantissa scaled down by the exponent. */
  lemma IntCastMinusParts(s: string, k: nat)
    requires 0 < k && k + 2 < |s| && AllDigits(s[..k]) && s[k] == 'e' && s[k + 1] == '-' && AllDigits(s[k + 2..])
    ensures IntCast(s) == Scaled(DigitsValue(s[..k]), -(DigitsValue(s[k + 2..]) as int))
  {
    IntCastPlain(s, k);
    var x := ExponentAt(s, k);
    assert x == -(DigitsValue(s[k + 2..]) as int) by {
      ExponentMinus(s, k);
    }
  }

  /** Digits, "e" and digits: the mantissa times ten to the exponent, as `(int)"1e3"` is 1000. */
  lemma IntCastExponent(m: nat, e: nat)
    ensures IntCast(NatToString(m) + "e" + NatToString(e)) == m * Pow10(e)
  {
    var a, x := NatToString(m), NatToString(e);
    var s := a + "e" + x;
    assert s[..|a|] == a && s[|a|] == 'e' && s[|a| + 1..] == x;
    IntCastPlusParts(s, |a|);
    ScaledUp(m, e);
  }

  /** Digits, "e-" and digits: the mantissa divided by ten to the exponent, as `(int)"5e-1"` is 0. */
  lemma IntCastNegativeExponent(m: nat, e: nat)
    ensures IntCast(NatToString(m) + "e-" + NatToString(e)) == m / Pow10(e)
  {
    var a, x := NatToString(m), NatToString(e);
    var s := a + "e-" + x;
    assert s[..|a|] == a && s[|a|] == 'e' && s[|a| + 1] == '-' && s[|a| + 2..] == x;
    IntCastMinusParts(s, |a|);
    ScaledDown(m, e);
  }

  /** A fraction is cut off: `(int)"<m>.<digits>"` is `m`. */
  lemma IntCastFraction(m: nat, d: string)
    requires AllDigits(d)
    ensures IntCast(NatToString(m) + "." + d) == m
  {
    var a := NatToString(m);
    var s := a + "." + d;
    assert SkipSet(s, 0, SPACE_CHARS) == 0;
    SkipDigitsRun(s, 0, |a|);
    SkipDigitsRun(s, |a| + 1, |s|);
    assert s[0..|a|] + s[|a| + 1..|s|] == a + d;
    assert ExponentAt(s, |s|) == 0;
    DigitsValueAppend(a, d);
    ScaledDown(DigitsValue(a + d), |d|);
    DivUnique(DigitsValue(a + d), Pow10(|d|), m, DigitsValue(d));
  }

  // ---------------------------------------------------------------------------
  // byte-wise ordering (strcmp)

  /** `strcmp($a, $b) <= 0`: byte-wise lexicographic order, a prefix first. */
  predicate StrLe(a: string, b: string)
    decreases |a|
  {
    |a| == 0 || (|b| > 0 && (a[0] < b[0] || (a[0] == b[0] && StrLe(a[1..], b[1..]))))
  }

  lemma {:induction false} StrLeRefl(a: string)
    ensures StrLe(a, a)
    decreases |a|
  {
    if |a| > 0 {
      StrLeRefl(a[1..]);
    }
  }

  lemma {:induction false} StrLeTotal(a: string, b: string)
    ensures StrLe(a, b) || StrLe(b, a)
    decreases |a|
  {
    if |a| > 0 && |b| > 0 && a[0] == b[0] {
      StrLeTotal(a[1..], b[1..]);
    }
  }

  lemma {:induction false} StrLeTrans(a: string, b: string, c: string)
    requires StrLe(a, b) && StrLe(b, c)
    ensures StrLe(a, c)
    decreases |a|
  {
    if |a| > 0 && a[0] == b[0] && b[0] == c[0] {
      StrLeTrans(a[1..], b[1..], c[1..]);
    }
  }

  lemma {:induction false} StrLeAntisym(a: string, b: string)
    requires StrLe(a, b) && StrLe(b, a)
    ensures a == b
    decreases |a|
  {
    if |a| > 0 {
      StrLeAntisym(a[1..], b[1..]);
      assert a == [a[0]] + a[1..];
      assert b == [b[0]] + b[1..];
    }
  }
}
