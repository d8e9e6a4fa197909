/**
 * PHP's dynamically typed values, as far as the library inspects them.
 *
 * Arrays are ordered maps from integer-or-string keys; a string key that
 * spells a canonical decimal integer is stored as that integer. Floats are
 * carried by their string rendering, which is all the library ever uses.
 */
module PhpValues {
  import opened Wrappers
  import opened Str
  import OrderedMap

  datatype Key = IntKey(i: int) | StrKey(s: string)

  /** An `UploadedFileInterface` instance, by its constructor arguments. */
  datatype UploadedFile = UploadedFile(stream: string, size: int, error: int, clientFilename: Value, clientMediaType: Value)

  datatype Value =
    | VNull
    | VBool(b: bool)
    | VInt(i: int)
    | VFloat(repr: string)
    | VStr(s: string)
    | VArr(entries: seq<(Key, Value)>)
    | VFile(file: UploadedFile)
    | VObj(cls: string)

  // ---------------------------------------------------------------------------
  // array keys

  /** `(string)$key`. */
  function KeyString(k: Key): string {
    match k
    case IntKey(i) => IntToString(i)
    case StrKey(s) => s
  }

  /** "0", or an optional '-' followed by digits without a leading zero (but not "-0"). */
  predicate IsCanonicalInt(s: string) {
    if |s| > 0 && s[0] == '-' then
      |s| > 1 && AllDigits(s[1..]) && s[1] != '0'
    else
      |s| > 0 && AllDigits(s) && (|s| == 1 || s[0] != '0')
  }

  /** The key PHP stores for the string `s` used as an array index. */
  function ArrayKey(s: string): (k: Key)
    ensures k.IntKey? <==> IsCanonicalInt(s)
  {
    if IsCanonicalInt(s) then IntKey(IntCast(s)) else StrKey(s)
  }

  lemma {:induction false} DigitsValuePositive(d: string)
    requires |d| >= 1 && AllDigits(d) && d[0] != '0'
    ensures DigitsValue(d) >= 1
  {
    if |d| > 1 {
      DigitsValuePositive(d[..|d| - 1]);
    }
  }

  /** A digit run without a leading zero is the rendering of its own value. */
  lemma {:induction false} NatToStringOfDigits(d: string)
    requires |d| >= 1 && AllDigits(d)
    requires |d| > 1 ==> d[0] != '0'
    ensures NatToString(DigitsValue(d)) == d
  {
    if |d| > 1 {
      var p := d[..|d| - 1];
      DigitsValuePositive(p);
      NatToStringOfDigits(p);
      var n := DigitsValue(d);
      assert n / 10 == DigitsValue(p) && n % 10 == DigitValue(d[|d| - 1]);
      assert d == p + [d[|d| - 1]];
    }
  }

  /** Using a string as an index and reading the key back as a string is lossless. */
  lemma ArrayKeyString(s: string)
    ensures KeyString(ArrayKey(s)) == s
  {
    if IsCanonicalInt(s) {
      if s[0] == '-' {
        var d := s[1..];
        CanonicalNegativeCast(s);
        DigitsValuePositive(d);
        NatToStringOfDigits(d);
        assert s == "-" + d;
      } else {
        CanonicalNaturalCast(s);
        NatToStringOfDigits(s);
      }
    }
  }

  lemma CanonicalNegativeCast(s: string)
    requires IsCanonicalInt(s) && s[0] == '-'
    ensures IntCast(s) == -(DigitsValue(s[1..]) as int)
  {
    assert SkipSet(s, 0, SPACE_CHARS) == 0;
    assert SkipDigits(s, 1) == |s|;
    UnsignedDigits(s, 1);
  }

  lemma CanonicalNaturalCast(s: string)
    requires IsCanonicalInt(s) && s[0] != '-'
    ensures IntCast(s) == DigitsValue(s)
  {
    assert SkipSet(s, 0, SPACE_CHARS) == 0;
    assert SkipDigits(s, 0) == |s|;
    UnsignedDigits(s, 0);
    assert s[0..] == s;
  }

  /** An integer key survives the trip through its string form. */
  lemma ArrayKeyInt(i: int)
    ensures ArrayKey(IntToString(i)) == IntKey(i)
  {
    IntCastInt(i);
    var s := IntToString(i);
    if i < 0 {
      assert s[1..] == NatToString(-i);
    }
  }

  // ---------------------------------------------------------------------------
  // type tests and casts

  predicate IsScalar(v: Value) {
    v.VBool? || v.VInt? || v.VFloat? || v.VStr?
  }

  /**
   * PHP 8 `is_numeric` on a string: optional white space, an optional sign, a
   * decimal number with an optional fraction and exponent, optional white space.
   */
  predicate IsNumericStr(s: string) {
    var i := SkipSet(s, 0, SPACE_CHARS);
    var j := if i < |s| && (s[i] == '+' || s[i] == '-') then i + 1 else i;
    var k := SkipDigits(s, j);
    var f := if k < |s| && s[k] == '.' then SkipDigits(s, k + 1) else k;
    var mantissaDigits := (k - j) + (if f > k then f - k - 1 else 0);
    var e := ExponentEnd(s, f);
    mantissaDigits > 0 && SkipSet(s, e, SPACE_CHARS) == |s|
  }

  /** End of an exponent `e[+-]digits` starting at `i`, or `i` when there is none. */
  function ExponentEnd(s: string, i: nat): (e: nat)
    requires i <= |s|
    ensures i <= e <= |s|
  {
    if i < |s| && (s[i] == 'e' || s[i] == 'E') then
      var j := if i + 1 < |s| && (s[i + 1] == '+' || s[i + 1] == '-') then i + 2 else i + 1;
      var k := SkipDigits(s, j);
      if k > j then k else i
    else i
  }

  predicate IsNumeric(v: Value) {
    match v
    case VInt(_) => true
    case VFloat(_) => true
    case VStr(s) => IsNumericStr(s)
    case _ => false
  }

  predicate IsNumericKey(k: Key) {
    match k
    case IntKey(_) => true
    case StrKey(s) => IsNumericStr(s)
  }

  /** PHP `empty()`: null, false, 0, 0.0, "", "0" and the empty array. */
  predicate Empty(v: Value) {
    match v
    case VNull => true
    case VBool(b) => !b
    case VInt(i) => i == 0
    case VFloat(r) => r == "0" || r == "-0"
    case VStr(s) => s == "" || s == "0"
    case VArr(e) => |e| == 0
    case _ => false
  }

  /** `(string)$v` for scalars and null. */
  function ToStr(v: Value): string
    requires IsScalar(v) || v.VNull?
  {
    match v
    case VNull => ""
    case VBool(b) => if b then "1" else ""
    case VInt(i) => IntToString(i)
    case VFloat(r) => r
    case VStr(s) => s
  }

  /** `(int)$v`. */
  function ToInt(v: Value): int {
    match v
    case VNull => 0
    case VBool(b) => if b then 1 else 0
    case VInt(i) => i
    case VFloat(r) => IntCast(r)
    case VStr(s) => IntCast(s)
    case VArr(e) => if |e| == 0 then 0 else 1
    case _ => 1
  }

  /** `$a[$k] ?? null` on an arbitrary value: anything but an array yields null. */
  function Index(a: Value, k: Key): Value {
    if a.VArr? then OrderedMap.Get(a.entries, k).GetOr(VNull) else VNull
  }

  /** `isset($a[$k])`. */
  predicate IsSet(a: Value, k: Key) {
    Index(a, k) != VNull
  }

  // ---------------------------------------------------------------------------
  // facts about the casts

  lemma IntToStringIsNumeric(i: int)
    ensures IsNumericStr(IntToString(i))
  {
    var s := IntToString(i);
    var j := if i < 0 then 1 else 0;
    assert SkipSet(s, 0, SPACE_CHARS) == 0;
    assert SkipDigits(s, j) == |s| by {
      assert AllDigits(s[j..]);
    }
  }

  /** A string starting with a letter is never numeric. */
  lemma LetterNotNumeric(s: string)
    requires |s| > 0 && 'a' <= LowerChar(s[0]) <= 'z'
    ensures !IsNumericStr(s)
  {
    assert SkipSet(s, 0, SPACE_CHARS) == 0;
    assert SkipDigits(s, 0) == 0;
  }

  /** `(int)` inverts `(string)` on integers. */
  lemma ToIntToStr(i: int)
    ensures ToInt(VStr(ToStr(VInt(i)))) == i
  {
    IntCastInt(i);
  }
}
