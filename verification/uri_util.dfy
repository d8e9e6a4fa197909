/**
 * URI helpers: default ports, the four kinds of reference of section 4 of
 * RFC 3986, and adding or removing one value of the query string.
 *
 * A URI is the record of its components as `UriInterface` exposes them;
 * `withQuery` stores the new query as given.
 */
module UriUtil {
  import opened Wrappers
  import opened Str
  import opened UrlCodec
  import OrderedMap

  datatype Uri = Uri(
    scheme: string,
    userInfo: string,
    host: string,
    port: Option<int>,
    path: string,
    query: string,
    fragment: string)

  /** `getAuthority()`: "[user-info@]host[:port]", empty when there is no host. */
  function Authority(u: Uri): (a: string)
    ensures a == "" <==> u.host == ""
  {
    if u.host == "" then ""
    else
      (if u.userInfo != "" then u.userInfo + "@" else "")
      + u.host
      + (if u.port.Some? then ":" + IntToString(u.port.value) else "")
  }

  const DEFAULT_PORTS: seq<(string, int)> := [
    ("http", 80),
    ("https", 443),
    ("ftp", 21),
    ("gopher", 70),
    ("nntp", 119),
    ("news", 119),
    ("telnet", 23),
    ("tn3270", 23),
    ("imap", 143),
    ("pop", 110),
    ("ldap", 389)
  ]

  /** No port, or the port the scheme uses by default. */
  predicate IsDefaultPort(u: Uri) {
    u.port.None? || OrderedMap.Get(DEFAULT_PORTS, u.scheme) == Some(u.port.value)
  }

  /** A port is default exactly when it is absent or listed for the scheme. */
  lemma IsDefaultPortIff(u: Uri)
    ensures IsDefaultPort(u) <==> u.port.None? || (u.scheme, u.port.value) in DEFAULT_PORTS
  {
    assert OrderedMap.UniqueKeys(DEFAULT_PORTS);
    if u.port.Some? {
      OrderedMap.GetIn(DEFAULT_PORTS, u.scheme, u.port.value);
    }
  }

  // ---------------------------------------------------------------------------
  // kinds of reference

  predicate IsAbsolute(u: Uri) {
    u.scheme != ""
  }

  /** A relative reference starting with "//". */
  predicate IsNetworkPathReference(u: Uri) {
    u.scheme == "" && Authority(u) != ""
  }

  /** A relative reference starting with a single "/". */
  predicate IsAbsolutePathReference(u: Uri) {
    u.scheme == "" && Authority(u) == "" && |u.path| > 0 && u.path[0] == '/'
  }

  /** A relative reference not starting with "/". */
  predicate IsRelativePathReference(u: Uri) {
    u.scheme == "" && Authority(u) == "" && (|u.path| == 0 || u.path[0] != '/')
  }

  /** Every URI is of exactly one of the four kinds. */
  lemma ReferenceKinds(u: Uri)
    ensures IsAbsolute(u) || IsNetworkPathReference(u) || IsAbsolutePathReference(u) || IsRelativePathReference(u)
    ensures IsAbsolute(u) ==> !IsNetworkPathReference(u) && !IsAbsolutePathReference(u) && !IsRelativePathReference(u)
    ensures IsNetworkPathReference(u) ==> !IsAbsolutePathReference(u) && !IsRelativePathReference(u)
    ensures IsAbsolutePathReference(u) ==> !IsRelativePathReference(u)
  {
  }

  // ---------------------------------------------------------------------------
  // query values

  /** The pieces of a non-empty query between '&'; an empty query has none. */
  function QueryParts(query: string): (parts: seq<string>)
    ensures forall i :: 0 <= i < |parts| ==> '&' !in parts[i]
  {
    if query == "" then [] else Split(query, '&')
  }

  /** The part's name, before any '=', decodes to the same text as `key`. */
  predicate Matches(part: string, key: string) {
    RawUrlDecode(Split(part, '=')[0]) == RawUrlDecode(key)
  }

  /** The parts that do not match `key`, in their order. */
  function KeptParts(parts: seq<string>, key: string): (r: seq<string>)
    ensures |r| <= |parts|
  {
    if |parts| == 0 then []
    else (if Matches(parts[0], key) then [] else [parts[0]]) + KeptParts(parts[1..], key)
  }

  /** The URI without any query part whose name matches `key`. */
  function WithoutQueryValue(u: Uri, key: string): (r: Uri)
    ensures r == u.(query := r.query)
    ensures u.query == "" ==> r == u
  {
    if u.query == "" then u
    else u.(query := Join(KeptParts(Split(u.query, '&'), key), "&"))
  }

  /** `strtr($s, ['=' => '%3D', '&' => '%26'])` on one character. */
  function EscapeSeparator(c: char): string {
    if c == '=' then "%3D" else if c == '&' then "%26" else [c]
  }

  /** Percent-encodes the query separators '=' and '&', and nothing else. */
  function EscapeSeparators(s: string): string {
    if |s| == 0 then "" else EscapeSeparator(s[0]) + EscapeSeparators(s[1..])
  }

  /** No separator survives the escape, and nothing gets shorter. */
  lemma {:induction false} EscapeSeparatorsSpec(s: string)
    ensures '=' !in EscapeSeparators(s) && '&' !in EscapeSeparators(s)
    ensures |EscapeSeparators(s)| >= |s|
  {
    if |s| > 0 {
      EscapeSeparatorsSpec(s[1..]);
      assert EscapeSeparators(s) == EscapeSeparator(s[0]) + EscapeSeparators(s[1..]);
    }
  }

  /** The part `withQueryValue` appends: "key=value", or the bare key without a value. */
  function NewPart(key: string, value: Option<string>): string {
    EscapeSeparators(key) + (if value.Some? then "=" + EscapeSeparators(value.value) else "")
  }

  /** The URI with every part matching `key` removed and the new part appended. */
  function WithQueryValue(u: Uri, key: string, value: Option<string>): (r: Uri)
    ensures r == u.(query := r.query)
  {
    var kept := if u.query != "" then KeptParts(Split(u.query, '&'), key) else [];
    u.(query := Join(kept + [NewPart(key, value)], "&"))
  }

  // ---------------------------------------------------------------------------
  // facts about the separators' escape

  /** The escape changes a string exactly when it holds a separator. */
  lemma {:induction false} EscapeSeparatorsIdentity(s: string)
    ensures EscapeSeparators(s) == s <==> '=' !in s && '&' !in s
  {
    if |s| > 0 {
      EscapeSeparatorsIdentity(s[1..]);
      assert s == [s[0]] + s[1..];
      if s[0] == '=' || s[0] == '&' {
        assert '=' in s || '&' in s;
        assert EscapeSeparators(s)[0] == '%';
      }
    }
  }

  /** The escape starts with the input's first character, or with '%' for a separator. */
  lemma EscapeStart(s: string)
    requires |s| > 0
    ensures |EscapeSeparators(s)| > 0
    ensures EscapeSeparators(s)[0] == if s[0] == '=' || s[0] == '&' then '%' else s[0]
  {
  }

  /** Decoding never sees the difference: the escape of a separator decodes to the separator. */
  lemma {:induction false} DecodeEscaped(s: string)
    ensures RawUrlDecode(EscapeSeparators(s)) == RawUrlDecode(s)
    decreases |s|
  {
    if |s| == 0 {
      return;
    }
    if s[0] == '%' && |s| >= 3 && IsHex(s[1]) && IsHex(s[2]) {
      DecodeEscaped(s[3..]);
      DecodeEscapedHex(s);
    } else {
      DecodeEscaped(s[1..]);
      if s[0] == '%' {
        DecodeEscapedPercent(s);
      } else {
        DecodeEscapedOther(s);
      }
    }
  }

  /** A valid escape in the input is copied unchanged and decodes the same. */
  lemma DecodeEscapedHex(s: string)
    requires |s| >= 3 && s[0] == '%' && IsHex(s[1]) && IsHex(s[2])
    requires RawUrlDecode(EscapeSeparators(s[3..])) == RawUrlDecode(s[3..])
    ensures RawUrlDecode(EscapeSeparators(s)) == RawUrlDecode(s)
  {
    var a, rest := s[..3], s[3..];
    var er := EscapeSeparators(rest);
    assert s == a + rest;
    assert a[0] == '%' && a[1] == s[1] && a[2] == s[2];
    EscapeHexHead(s);
    DecodeEscapeThen(a, er);
    DecodeEscapeThen(a, rest);
    assert RawUrlDecode(EscapeSeparators(s)) == RawUrlDecode(a) + RawUrlDecode(er);
  }

  /** An escape at the head of the input is copied unchanged. */
  lemma EscapeHexHead(s: string)
    requires |s| >= 3 && s[0] == '%' && IsHex(s[1]) && IsHex(s[2])
    ensures EscapeSeparators(s) == s[..3] + EscapeSeparators(s[3..])
  {
    var t1, t2, t3 := s[1..], s[2..], s[3..];
    EscapePlainHead(s);
    assert t1[0] == s[1] && t1[1..] == t2;
    EscapePlainHead(t1);
    assert t2[0] == s[2] && t2[1..] == t3;
    EscapePlainHead(t2);
    ConsThree(s[0], s[1], s[2], EscapeSeparators(t3));
    assert s[..3] == [s[0], s[1], s[2]];
  }

  lemma ConsThree(a: char, b: char, c: char, rest: string)
    ensures [a] + ([b] + ([c] + rest)) == [a, b, c] + rest
  {
  }

  /** A character other than a separator is copied as it is. */
  lemma EscapePlainHead(s: string)
    requires |s| > 0 && s[0] != '=' && s[0] != '&'
    ensures EscapeSeparators(s) == [s[0]] + EscapeSeparators(s[1..])
  {
  }

  /** A complete escape decodes on its own, whatever follows it. */
  lemma DecodeEscapeThen(a: string, x: string)
    requires |a| == 3 && a[0] == '%' && IsHex(a[1]) && IsHex(a[2])
    ensures RawUrlDecode(a + x) == RawUrlDecode(a) + RawUrlDecode(x)
  {
    assert (a + x)[3..] == x && a[3..] == "";
  }

  /** A string without separators is left as it is. */
  lemma {:induction false} EscapeKeeps(a: string)
    requires forall i :: 0 <= i < |a| ==> a[i] != '=' && a[i] != '&'
    ensures EscapeSeparators(a) == a
    decreases |a|
  {
    if |a| > 0 {
      EscapeKeeps(a[1..]);
      assert a == [a[0]] + a[1..];
    }
  }

  /** The escape works character by character. */
  lemma {:induction false} EscapeAppend(a: string, x: string)
    ensures EscapeSeparators(a + x) == EscapeSeparators(a) + EscapeSeparators(x)
    decreases |a|
  {
    if |a| == 0 {
      assert a + x == x;
    } else {
      assert (a + x)[0] == a[0] && (a + x)[1..] == a[1..] + x;
      EscapeAppend(a[1..], x);
    }
  }

  /** `rawurldecode` decodes a leading escape and carries on after it. */
  lemma DecodeHead(s: string)
    requires |s| >= 3 && s[0] == '%' && IsHex(s[1]) && IsHex(s[2])
    ensures RawUrlDecode(s) == [(HexValue(s[1]) * 16 + HexValue(s[2])) as char] + RawUrlDecode(s[3..])
  {
  }

  /** `rawurldecode` copies a leading character that starts no escape. */
  lemma DecodePlainHead(s: string)
    requires |s| > 0 && !(s[0] == '%' && |s| >= 3 && IsHex(s[1]) && IsHex(s[2]))
    ensures RawUrlDecode(s) == [s[0]] + RawUrlDecode(s[1..])
  {
  }

  /** A '%' that starts no valid escape still starts none after the escape. */
  lemma DecodeEscapedPercent(s: string)
    requires |s| > 0 && s[0] == '%' && !(|s| >= 3 && IsHex(s[1]) && IsHex(s[2]))
    requires RawUrlDecode(EscapeSeparators(s[1..])) == RawUrlDecode(s[1..])
    ensures RawUrlDecode(EscapeSeparators(s)) == RawUrlDecode(s)
  {
    var t := EscapeSeparators(s[1..]);
    var e := EscapeSeparators(s);
    assert e == ['%'] + t;
    assert e[1..] == t;
    if |s| >= 2 {
      EscapeStart(s[1..]);
      if IsHex(s[1]) {
        assert s[1..][1..] == s[2..];
        assert t == [s[1]] + EscapeSeparators(s[2..]);
        if |s| >= 3 {
          EscapeStart(s[2..]);
          assert !IsHex(e[2]);
        } else {
          assert |e| == 2;
        }
      }
    }
    DecodePlainHead(e);
    DecodePlainHead(s);
  }

  /** Any other character decodes to itself, escaped or not. */
  lemma DecodeEscapedOther(s: string)
    requires |s| > 0 && s[0] != '%'
    requires RawUrlDecode(EscapeSeparators(s[1..])) == RawUrlDecode(s[1..])
    ensures RawUrlDecode(EscapeSeparators(s)) == RawUrlDecode(s)
  {
    var t := EscapeSeparators(s[1..]);
    var e := EscapeSeparators(s);
    assert e == EscapeSeparator(s[0]) + t;
    DecodePlainHead(s);
    if s[0] == '=' || s[0] == '&' {
      var h := EscapeSeparator(s[0]);
      assert e == h + t && |h| == 3;
      assert e[0] == '%' && e[1] == h[1] && e[2] == h[2] && e[3..] == t;
      DecodeHead(e);
      assert (HexValue(h[1]) * 16 + HexValue(h[2])) as char == s[0];
    } else {
      assert e == [s[0]] + t;
      assert e[1..] == t;
      DecodePlainHead(e);
    }
  }

  /** The appended part names the key it was added under. */
  lemma NewPartMatches(key: string, value: Option<string>)
    ensures Matches(NewPart(key, value), key)
    ensures '&' !in NewPart(key, value)
  {
    NewPartHead(key, value);
    DecodeEscaped(key);
  }

  /** The escaped key is the first '='-piece of the new part, and no '&' occurs in it. */
  lemma NewPartHead(key: string, value: Option<string>)
    ensures Split(NewPart(key, value), '=')[0] == EscapeSeparators(key)
    ensures '&' !in NewPart(key, value)
  {
    var k := EscapeSeparators(key);
    EscapeSeparatorsSpec(key);
    if value.Some? {
      var v := EscapeSeparators(value.value);
      EscapeSeparatorsSpec(value.value);
      assert NewPart(key, value) == k + ['='] + v;
      SplitHeadOf(k, v, '=');
    } else {
      assert NewPart(key, value) == k;
      SplitNoDelim(k, '=');
    }
  }

  // ---------------------------------------------------------------------------
  // facts about the filter

  /** A part is kept exactly when it is one of the input parts and does not match. */
  lemma {:induction false} KeptPartsSpec(parts: seq<string>, key: string)
    ensures forall p :: p in KeptParts(parts, key) <==> p in parts && !Matches(p, key)
  {
    if |parts| > 0 {
      KeptPartsSpec(parts[1..], key);
      assert parts == [parts[0]] + parts[1..];
    }
  }

  /** Parts none of which match are all kept. */
  lemma {:induction false} KeptPartsAll(parts: seq<string>, key: string)
    requires forall i :: 0 <= i < |parts| ==> !Matches(parts[i], key)
    ensures KeptParts(parts, key) == parts
  {
    if |parts| > 0 {
      KeptPartsAll(parts[1..], key);
      assert parts == [parts[0]] + parts[1..];
    }
  }

  lemma {:induction false} KeptPartsAppend(a: seq<string>, b: seq<string>, key: string)
    ensures KeptParts(a + b, key) == KeptParts(a, key) + KeptParts(b, key)
  {
    if |a| > 0 {
      KeptPartsAppend(a[1..], b, key);
      var head := if Matches(a[0], key) then [] else [a[0]];
      assert (a + b)[0] == a[0] && (a + b)[1..] == a[1..] + b;
      assert KeptParts(a + b, key) == head + KeptParts(a[1..] + b, key);
      assert KeptParts(a, key) == head + KeptParts(a[1..], key);
    } else {
      assert a + b == b;
    }
  }

  /** Kept parts are delimiter-free when the input parts are. */
  lemma KeptPartsNoAmp(parts: seq<string>, key: string)
    requires forall i :: 0 <= i < |parts| ==> '&' !in parts[i]
    ensures forall i :: 0 <= i < |KeptParts(parts, key)| ==> '&' !in KeptParts(parts, key)[i]
  {
    KeptPartsSpec(parts, key);
    var r := KeptParts(parts, key);
    forall i | 0 <= i < |r|
      ensures '&' !in r[i]
    {
      assert r[i] in parts;
    }
  }

  // ---------------------------------------------------------------------------
  // withoutQueryValue and withQueryValue

  /** After removal, the query's parts are the old ones that do not match `key`, in their order and with repeats kept. */
  lemma WithoutQueryValueParts(u: Uri, key: string)
    requires WithoutQueryValue(u, key).query != ""
    ensures Split(WithoutQueryValue(u, key).query, '&') == KeptParts(QueryParts(u.query), key)
    ensures forall p :: p in Split(WithoutQueryValue(u, key).query, '&') <==> p in QueryParts(u.query) && !Matches(p, key)
  {
    var parts := Split(u.query, '&');
    var kept := KeptParts(parts, key);
    KeptPartsSpec(parts, key);
    KeptPartsNoAmp(parts, key);
    SplitJoin(kept, '&');
  }

  /** Removing a key twice is removing it once. */
  lemma WithoutQueryValueIdempotent(u: Uri, key: string)
    ensures WithoutQueryValue(WithoutQueryValue(u, key), key) == WithoutQueryValue(u, key)
  {
    var r := WithoutQueryValue(u, key);
    if u.query != "" && r.query != "" {
      var parts := Split(u.query, '&');
      var kept := KeptParts(parts, key);
      KeptPartsSpec(parts, key);
      KeptPartsNoAmp(parts, key);
      SplitJoin(kept, '&');
      forall i | 0 <= i < |kept|
        ensures !Matches(kept[i], key)
      {
        assert kept[i] in kept;
      }
      KeptPartsAll(kept, key);
    }
  }

  /** No kept part matches the key. */
  lemma KeptPartsNoneMatch(parts: seq<string>, key: string)
    ensures forall i :: 0 <= i < |KeptParts(parts, key)| ==> !Matches(KeptParts(parts, key)[i], key)
  {
    KeptPartsSpec(parts, key);
    var r := KeptParts(parts, key);
    forall i | 0 <= i < |r|
      ensures !Matches(r[i], key)
    {
      assert r[i] in r;
    }
  }

  /** The new query splits into the kept old parts followed by the new part. */
  lemma WithQueryValueSplit(u: Uri, key: string, value: Option<string>)
    ensures Split(WithQueryValue(u, key, value).query, '&')
         == KeptParts(QueryParts(u.query), key) + [NewPart(key, value)]
  {
    var olds := QueryParts(u.query);
    var kept := KeptParts(olds, key);
    assert u.query == "" ==> kept == [];
    NewPartMatches(key, value);
    KeptPartsNoAmp(olds, key);
    SplitJoin(kept + [NewPart(key, value)], '&');
  }

  /** After `withQueryValue`, the last part is the new one, it alone matches the key, and the others are the old non-matching parts. */
  lemma WithQueryValueParts(u: Uri, key: string, value: Option<string>)
    ensures var parts := Split(WithQueryValue(u, key, value).query, '&');
      && parts[|parts| - 1] == NewPart(key, value)
      && Matches(parts[|parts| - 1], key)
      && (forall i :: 0 <= i < |parts| - 1 ==> !Matches(parts[i], key))
      && (forall p :: p in parts[..|parts| - 1] <==> p in QueryParts(u.query) && !Matches(p, key))
  {
    var kept := KeptParts(QueryParts(u.query), key);
    var all := kept + [NewPart(key, value)];
    WithQueryValueSplit(u, key, value);
    NewPartMatches(key, value);
    KeptPartsSpec(QueryParts(u.query), key);
    KeptPartsNoneMatch(QueryParts(u.query), key);
    assert all[..|all| - 1] == kept;
  }

  /** Setting a key and then removing it is the same as removing it. */
  lemma WithoutAfterWith(u: Uri, key: string, value: Option<string>)
    ensures WithoutQueryValue(WithQueryValue(u, key, value), key) == WithoutQueryValue(u, key)
  {
    var kept := KeptParts(QueryParts(u.query), key);
    assert u.query == "" ==> kept == [];
    var np := NewPart(key, value);
    var w := WithQueryValue(u, key, value);
    if w.query == "" {
      JoinEmpty(kept + [np], "&");
    } else {
      var parts := Split(w.query, '&');
      WithQueryValueSplit(u, key, value);
      NewPartMatches(key, value);
      KeptPartsAppend(kept, [np], key);
      KeptPartsNoneMatch(QueryParts(u.query), key);
      KeptPartsAll(kept, key);
      assert KeptParts([np], key) == [] by {
        assert [np][1..] == [];
      }
      assert KeptParts(parts, key) == kept;
      assert WithoutQueryValue(w, key) == w.(query := Join(kept, "&"));
      if u.query == "" {
        assert w.(query := Join(kept, "&")) == u;
      }
    }
  }
}
