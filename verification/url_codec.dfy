/**
 * Percent-encoding as PHP's `rawurlencode`, `urlencode`, `rawurldecode` and
 * `urldecode` perform it, one character per byte.
 *
 * `rawurlencode` keeps the unreserved characters of section 2.3 of RFC 3986;
 * `urlencode` follows the form encoding of RFC 1738, turning a space into '+'
 * and escaping '~'. Escapes use upper-case hexadecimal digits; decoding
 * accepts either case and leaves a '%' that does not start an escape alone.
 */
module UrlCodec {

  /** Every character stands for one byte. */
  predicate IsByteString(s: string) {
    forall i :: 0 <= i < |s| ==> s[i] as int < 256
  }

  predicate IsAlnum(c: char) {
    '0' <= c <= '9' || 'A' <= c <= 'Z' || 'a' <= c <= 'z'
  }

  /** Left alone by `rawurlencode`. */
  predicate IsUnreserved(c: char) {
    IsAlnum(c) || c == '-' || c == '_' || c == '.' || c == '~'
  }

  /** Left alone by `urlencode`. */
  predicate IsFormSafe(c: char) {
    IsAlnum(c) || c == '-' || c == '_' || c == '.'
  }

  predicate IsHex(c: char) {
    '0' <= c <= '9' || 'A' <= c <= 'F' || 'a' <= c <= 'f'
  }

  function HexValue(c: char): (v: nat)
    requires IsHex(c)
    ensures v < 16
  {
    if '0' <= c <= '9' then c as int - '0' as int
    else if 'A' <= c <= 'F' then c as int - 'A' as int + 10
    else c as int - 'a' as int + 10
  }

  function HexDigit(d: nat): (c: char)
    requires d < 16
    ensures IsHex(c) && HexValue(c) == d
  {
    if d < 10 then ('0' as int + d) as char else ('A' as int + d - 10) as char
  }

  /** "%XY" for the low byte of `c`. */
  function Escape(c: char): string {
    var b := c as int % 256;
    ['%', HexDigit(b / 16), HexDigit(b % 16)]
  }

  function RawEncodeChar(c: char): string {
    if IsUnreserved(c) then [c] else Escape(c)
  }

  function FormEncodeChar(c: char): string {
    if IsFormSafe(c) then [c] else if c == ' ' then "+" else Escape(c)
  }

  /** `rawurlencode`. */
  function RawUrlEncode(s: string): (r: string)
    ensures |r| >= |s|
  {
    if |s| == 0 then "" else RawEncodeChar(s[0]) + RawUrlEncode(s[1..])
  }

  /** `urlencode`. */
  function UrlEncode(s: string): (r: string)
    ensures |r| >= |s|
  {
    if |s| == 0 then "" else FormEncodeChar(s[0]) + UrlEncode(s[1..])
  }

  /** `rawurldecode`. */
  function RawUrlDecode(s: string): (r: string)
    ensures |r| <= |s|
  {
    if |s| == 0 then ""
    else if s[0] == '%' && |s| >= 3 && IsHex(s[1]) && IsHex(s[2]) then
      [(HexValue(s[1]) * 16 + HexValue(s[2])) as char] + RawUrlDecode(s[3..])
    else [s[0]] + RawUrlDecode(s[1..])
  }

  /** `urldecode`: `rawurldecode` that also reads '+' as a space. */
  function UrlDecode(s: string): (r: string)
    ensures |r| <= |s|
  {
    if |s| == 0 then ""
    else if s[0] == '%' && |s| >= 3 && IsHex(s[1]) && IsHex(s[2]) then
      [(HexValue(s[1]) * 16 + HexValue(s[2])) as char] + UrlDecode(s[3..])
    else [if s[0] == '+' then ' ' else s[0]] + UrlDecode(s[1..])
  }

  // ---------------------------------------------------------------------------
  // round trips

  lemma RawDecodeStep(c: char, t: string)
    requires c as int < 256
    ensures RawUrlDecode(RawEncodeChar(c) + t) == [c] + RawUrlDecode(t)
  {
    if IsUnreserved(c) {
      assert ([c] + t)[1..] == t;
    } else {
      EscapeDecodes(c, t);
    }
  }

  lemma FormDecodeStep(c: char, t: string)
    requires c as int < 256
    ensures UrlDecode(FormEncodeChar(c) + t) == [c] + UrlDecode(t)
  {
    if IsFormSafe(c) {
      assert ([c] + t)[1..] == t;
    } else if c == ' ' {
      assert ("+" + t)[1..] == t;
    } else {
      EscapeDecodes(c, t);
    }
  }

  /** Both decoders read an escape back as the byte it encodes. */
  lemma EscapeDecodes(c: char, t: string)
    requires c as int < 256
    ensures RawUrlDecode(Escape(c) + t) == [c] + RawUrlDecode(t)
    ensures UrlDecode(Escape(c) + t) == [c] + UrlDecode(t)
  {
    var s := Escape(c) + t;
    assert s[0] == '%' && IsHex(s[1]) && IsHex(s[2]);
    assert HexValue(s[1]) * 16 + HexValue(s[2]) == c as int;
    assert s[3..] == t;
  }

  /** `rawurldecode(rawurlencode($s)) === $s`. */
  lemma {:induction false} RawUrlRoundTrip(s: string)
    requires IsByteString(s)
    ensures RawUrlDecode(RawUrlEncode(s)) == s
  {
    if |s| > 0 {
      RawUrlRoundTrip(s[1..]);
      RawDecodeStep(s[0], RawUrlEncode(s[1..]));
      assert s == [s[0]] + s[1..];
    }
  }

  /** `urldecode(urlencode($s)) === $s`. */
  lemma {:induction false} UrlRoundTrip(s: string)
    requires IsByteString(s)
    ensures UrlDecode(UrlEncode(s)) == s
  {
    if |s| > 0 {
      UrlRoundTrip(s[1..]);
      FormDecodeStep(s[0], UrlEncode(s[1..]));
      assert s == [s[0]] + s[1..];
    }
  }

  /** `rawurlencode` changes a string iff it holds a character outside the unreserved set. */
  lemma {:induction false} RawUrlEncodeIdentity(s: string)
    ensures RawUrlEncode(s) == s <==> forall i :: 0 <= i < |s| ==> IsUnreserved(s[i])
  {
    if |s| > 0 {
      RawUrlEncodeIdentity(s[1..]);
      if !IsUnreserved(s[0]) {
        RawUrlEncodeLonger(s);
      }
      assert forall i :: 1 <= i < |s| ==> s[i] == s[1..][i - 1];
    }
  }

  lemma {:induction false} RawUrlEncodeLonger(s: string)
    requires exists i :: 0 <= i < |s| && !IsUnreserved(s[i])
    ensures |RawUrlEncode(s)| > |s|
  {
    if IsUnreserved(s[0]) {
      var i :| 0 <= i < |s| && !IsUnreserved(s[i]);
      assert s[1..][i - 1] == s[i];
      RawUrlEncodeLonger(s[1..]);
    }
  }

  /** The output of `rawurlencode` holds only unreserved characters and escapes. */
  lemma {:induction false} RawUrlEncodeAlphabet(s: string)
    ensures forall i :: 0 <= i < |RawUrlEncode(s)| ==>
      IsUnreserved(RawUrlEncode(s)[i]) || RawUrlEncode(s)[i] == '%' || IsHex(RawUrlEncode(s)[i])
  {
    if |s| > 0 {
      RawUrlEncodeAlphabet(s[1..]);
      var h := RawEncodeChar(s[0]);
      var r := RawUrlEncode(s);
      assert forall i :: |h| <= i < |r| ==> r[i] == RawUrlEncode(s[1..])[i - |h|];
    }
  }

  /** A string without '%' is its own `rawurldecode`. */
  lemma {:induction false} RawUrlDecodeNoPercent(s: string)
    requires forall i :: 0 <= i < |s| ==> s[i] != '%'
    ensures RawUrlDecode(s) == s
  {
    if |s| > 0 {
      RawUrlDecodeNoPercent(s[1..]);
    }
  }
}
