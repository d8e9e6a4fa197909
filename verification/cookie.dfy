/**
 * A `Set-Cookie` field value under construction, after section 4.1 of
 * RFC 6265: a validated name, a percent-encoded value and the optional
 * Expires/Max-Age, Domain, Path, Secure, HttpOnly and SameSite attributes.
 *
 * The clock is the parameter `now` (seconds since the epoch); an expiry is
 * held as a timestamp, and the rendering of a timestamp in the cookie date
 * format is the parameter `formatDate`.
 */
module Cookies {
  import opened Wrappers
  import opened Str
  import opened UrlCodec

  /** Characters a cookie name may not contain: \t \n \v \f \r \x0E, space, ',', ';' and '='. */
  const RESERVED_CHARACTERS: set<char> :=
    {'\t', '\n', '\U{000B}', '\U{000C}', '\r', '\U{000E}', ' ', ',', ';', '='}

  /** The timestamp `withExpiry(0)` sets so that a browser drops the cookie: 01-Jan-1970 12:34:56. */
  const DELETION_TIMESTAMP: int := 45296

  datatype Cookie = Cookie(
    name: string,
    value: string,
    expiry: Option<int>,
    maxAge: int,
    domain: Option<string>,
    path: Option<string>,
    secure: bool,
    httpOnly: bool,
    sameSite: Option<string>)

  /** The argument of `withExpiry`. */
  datatype ExpiryArg =
    | NoExpiry               // null
    | AtTime(timestamp: int) // a DateTimeInterface
    | After(seconds: int)    // a DateInterval, as the number of seconds it spans
    | Stamp(i: int)          // an int: 0, a relative offset, or a timestamp

  predicate ValidName(name: string) {
    name != "" && Trim(name) == name && forall i :: 0 <= i < |name| ==> name[i] !in RESERVED_CHARACTERS
  }

  /** `withNameAndValue`: the name is trimmed and checked, the value trimmed and `rawurlencode`d. */
  function WithNameAndValue(c: Cookie, name: string, value: string): (r: Result<Cookie>)
    ensures r.Ok? ==> r.value == c.(name := r.value.name, value := r.value.value)
  {
    var n := Trim(name);
    if n == "" then Err(InvalidArgument("The cookie name cannot be empty."))
    else if Remove(n, RESERVED_CHARACTERS) != n then
      Err(InvalidArgument("The cookie name contains invalid (reserved) characters."))
    else Ok(c.(name := n, value := RawUrlEncode(Trim(value))))
  }

  /** `new Cookie($name, $value)`: a null value stands for the empty one. */
  function NewCookie(name: string, value: Option<string>): Result<Cookie> {
    var blank := Cookie("", "", None, 0, None, None, false, false, None);
    WithNameAndValue(blank, name, value.GetOr(""))
  }

  /** `withExpiry`: sets the expiry and `maxAge`, the seconds from `now` to it, never negative. */
  function WithExpiry(c: Cookie, expiry: ExpiryArg, now: int): (r: Cookie)
    ensures r == c.(expiry := r.expiry, maxAge := r.maxAge)
    ensures r.maxAge >= 0
    ensures r.expiry.None? <==> expiry.NoExpiry?
  {
    match expiry
    case NoExpiry => c.(expiry := None, maxAge := 0)
    case _ =>
      var at :=
        match expiry
        case AtTime(t) => t
        case After(d) => now + d
        case Stamp(i) =>
          if i == 0 then DELETION_TIMESTAMP
          else if i < now then now + i
          else i;
      var age := at - now;
      c.(expiry := Some(at), maxAge := if age < 0 then 0 else age)
  }

  /** `withDomain`: trimmed and lower-cased, then converted with `toAscii` when punycode is asked for. */
  function WithDomain(c: Cookie, domain: Option<string>, punycode: Option<bool>, toAscii: string -> Option<string>): (r: Result<Cookie>)
    ensures r.Ok? ==> r.value == c.(domain := r.value.domain)
    ensures r.Err? <==> domain.Some? && punycode == Some(true) && toAscii(Lower(Trim(domain.value))).None?
    ensures r.Err? ==> r.error == Runtime("Could not convert the given domain to IDN")
    ensures domain.None? ==> r == Ok(c.(domain := None))
    ensures r.Ok? && domain.Some? && punycode != Some(true) ==> r.value.domain == Some(Lower(Trim(domain.value)))
    ensures r.Ok? && domain.Some? && punycode == Some(true) ==> r.value.domain == toAscii(Lower(Trim(domain.value)))
  {
    if domain.None? then Ok(c.(domain := None))
    else
      var d := Lower(Trim(domain.value));
      if punycode == Some(true) then
        match toAscii(d)
        case None => Err(Runtime("Could not convert the given domain to IDN"))
        case Some(a) => Ok(c.(domain := Some(a)))
      else Ok(c.(domain := Some(d)))
  }

  /** `withPath`: trimmed, with the empty path standing for "/". */
  function WithPath(c: Cookie, path: Option<string>): (r: Cookie)
    ensures r == c.(path := r.path)
  {
    match path
    case None => c.(path := None)
    case Some(p) => var t := Trim(p); c.(path := Some(if t == "" then "/" else t))
  }

  /** `withSecure`. */
  function WithSecure(c: Cookie, secure: bool): (r: Cookie)
    ensures r.secure == secure
    ensures r == c.(secure := r.secure)
  {
    c.(secure := secure)
  }

  /** `withHttpOnly`. */
  function WithHttpOnly(c: Cookie, httpOnly: bool): (r: Cookie)
    ensures r.httpOnly == httpOnly
    ensures r == c.(httpOnly := r.httpOnly)
  {
    c.(httpOnly := httpOnly)
  }

  const SAME_SITE_VALUES: seq<string> := ["lax", "strict", "none"]

  /** `withSameSite`: trimmed and lower-cased, and one of lax, strict or none. */
  function WithSameSite(c: Cookie, sameSite: Option<string>): (r: Result<Cookie>)
    ensures r.Ok? ==> r.value == c.(sameSite := r.value.sameSite)
  {
    match sameSite
    case None => Ok(c.(sameSite := None))
    case Some(s) =>
      var v := Lower(Trim(s));
      if v !in SAME_SITE_VALUES then
        Err(InvalidArgument("The same site attribute must be \"lax\", \"strict\" or \"none\""))
      else Ok(c.(sameSite := Some(v)))
  }

  // ---------------------------------------------------------------------------
  // rendering

  /** The attributes of the field value, in the order they are written. */
  datatype Attr = NameValue | Expires | Domain | Path | Secure | HttpOnly | SameSite

  function Rank(a: Attr): nat {
    match a
    case NameValue => 0
    case Expires => 1
    case Domain => 2
    case Path => 3
    case Secure => 4
    case HttpOnly => 5
    case SameSite => 6
  }

  /** Rendering first resets the expiry of a cookie with an empty value to the deletion time. */
  function Prepared(c: Cookie, now: int): (p: Cookie)
    ensures c.expiry.Some? && c.value == "" ==> p.expiry == Some(DELETION_TIMESTAMP)
    ensures !(c.expiry.Some? && c.value == "") ==> p == c
  {
    if c.expiry.Some? && c.value == "" then WithExpiry(c, Stamp(0), now) else c
  }

  /** An attribute that may be written: whether it is present, its tag and its text. */
  datatype Candidate = Candidate(present: bool, tag: Attr, text: string)

  /** Every attribute in the order `__toString` considers them. */
  function Candidates(c: Cookie, formatDate: int -> string): (cs: seq<Candidate>)
    ensures |cs| == 7
    ensures forall i :: 0 <= i < 7 ==> Rank(cs[i].tag) == i
  {
    [ Candidate(true, NameValue, c.name + "=" + c.value),
      Candidate(c.expiry.Some?, Expires,
        if c.expiry.Some? then "Expires=" + formatDate(c.expiry.value) + "; Max-Age=" + IntToString(c.maxAge) else ""),
      Candidate(c.domain.Some?, Domain, "Domain=" + c.domain.GetOr("")),
      Candidate(c.path.Some?, Path, "Path=" + c.path.GetOr("")),
      Candidate(c.secure, Secure, "Secure"),
      Candidate(c.httpOnly, HttpOnly, "HttpOnly"),
      Candidate(c.sameSite.Some?, SameSite, "SameSite=" + c.sameSite.GetOr("")) ]
  }

  /** The candidates that are present, in order, as tagged texts. */
  function Present(cs: seq<Candidate>): seq<(Attr, string)> {
    if |cs| == 0 then []
    else (if cs[0].present then [(cs[0].tag, cs[0].text)] else []) + Present(cs[1..])
  }

  /** The attributes that are written, each with its text. */
  function Attributes(c: Cookie, formatDate: int -> string): seq<(Attr, string)> {
    Present(Candidates(c, formatDate))
  }

  function Tags(attrs: seq<(Attr, string)>): (ts: seq<Attr>)
    ensures |ts| == |attrs|
    ensures forall i :: 0 <= i < |attrs| ==> ts[i] == attrs[i].0
  {
    seq(|attrs|, i requires 0 <= i < |attrs| => attrs[i].0)
  }

  function Texts(attrs: seq<(Attr, string)>): (ts: seq<string>)
    ensures |ts| == |attrs|
    ensures forall i :: 0 <= i < |attrs| ==> ts[i] == attrs[i].1
  {
    seq(|attrs|, i requires 0 <= i < |attrs| => attrs[i].1)
  }

  /** `__toString`: the present attributes joined by "; ", refusing SameSite=none without Secure. */
  function ToString(c: Cookie, now: int, formatDate: int -> string): (r: Result<string>)
    ensures r.Err? <==> c.sameSite == Some("none") && !c.secure
  {
    var p := Prepared(c, now);
    if p.sameSite == Some("none") && !p.secure then
      Err(InvalidArgument("The same site attribute can only be \"none\" when secure is set to true"))
    else Ok(Join(Texts(Attributes(p, formatDate)), "; "))
  }

  // ---------------------------------------------------------------------------
  // facts

  /** `str_replace` of the reserved characters changes the name exactly when it holds one. */
  lemma RemoveChanges(s: string, cs: set<char>)
    ensures Remove(s, cs) == s <==> forall i :: 0 <= i < |s| ==> s[i] !in cs
  {
    if forall i :: 0 <= i < |s| ==> s[i] !in cs {
      RemoveNoop(s, cs);
    }
  }

  /** The name is refused exactly when it is blank or holds a reserved character. */
  lemma WithNameAndValueFails(c: Cookie, name: string, value: string)
    ensures WithNameAndValue(c, name, value).Err? <==> !ValidName(Trim(name))
    ensures Trim(name) == "" ==> WithNameAndValue(c, name, value) == Err(InvalidArgument("The cookie name cannot be empty."))
  {
    TrimIdempotent(name);
    NameCheck(Trim(name));
  }

  /** On a trimmed name, the two checks of `withNameAndValue` together are `ValidName`. */
  lemma NameCheck(n: string)
    requires Trim(n) == n
    ensures (n == "" || Remove(n, RESERVED_CHARACTERS) != n) <==> !ValidName(n)
  {
    RemoveChanges(n, RESERVED_CHARACTERS);
  }

  /** An accepted cookie holds the trimmed name and a value that decodes back to the trimmed value. */
  lemma WithNameAndValueStores(c: Cookie, name: string, value: string)
    requires WithNameAndValue(c, name, value).Ok?
    requires IsByteString(value)
    ensures var r := WithNameAndValue(c, name, value).value;
      && ValidName(r.name)
      && r.name == Trim(name)
      && RawUrlDecode(r.value) == Trim(value)
      && forall i :: 0 <= i < |r.value| ==> IsUnreserved(r.value[i]) || r.value[i] == '%' || IsHex(r.value[i])
  {
    WithNameAndValueFails(c, name, value);
    var t := Trim(value);
    TrimByteString(value);
    RawUrlRoundTrip(t);
    RawUrlEncodeAlphabet(t);
  }

  /** Trimming keeps a byte string a byte string. */
  lemma TrimByteString(value: string)
    requires IsByteString(value)
    ensures IsByteString(Trim(value))
  {
    var t := Trim(value);
    TrimShape(value, TRIM_CHARS);
    var k := |value| - |TrimLeft(value, TRIM_CHARS)|;
    assert forall i :: 0 <= i < |t| ==> t[i] == value[k + i];
  }

  /** `maxAge` is the distance from `now` to the expiry, clamped at zero. */
  lemma WithExpiryMaxAge(c: Cookie, expiry: ExpiryArg, now: int)
    requires !expiry.NoExpiry?
    ensures var r := WithExpiry(c, expiry, now);
      r.maxAge == if r.expiry.value < now then 0 else r.expiry.value - now
  {
  }

  /** Which instant an integer argument denotes: 0 deletes, a past value is relative, a later one absolute. */
  lemma WithExpiryStamp(c: Cookie, i: int, now: int)
    ensures var r := WithExpiry(c, Stamp(i), now);
      && (i == 0 ==> r.expiry == Some(DELETION_TIMESTAMP))
      && (i != 0 && i < now ==> r.expiry == Some(now + i) && r.maxAge == (if i < 0 then 0 else i))
      && (i != 0 && i >= now ==> r.expiry == Some(i) && r.maxAge == i - now)
  {
  }

  /** `withExpiry(null)` clears both the expiry and `maxAge`. */
  lemma WithExpiryCleared(c: Cookie, now: int)
    ensures WithExpiry(c, NoExpiry, now).expiry.None? && WithExpiry(c, NoExpiry, now).maxAge == 0
  {
  }

  /** The stored path is never empty and has no surrounding white space. */
  lemma WithPathSpec(c: Cookie, path: string)
    ensures var r := WithPath(c, Some(path)).path.value;
      && r != ""
      && r[0] !in TRIM_CHARS && r[|r| - 1] !in TRIM_CHARS
      && (Trim(path) != "" ==> r == Trim(path))
  {
    TrimEnds(path, TRIM_CHARS);
    if Trim(path) == "" {
      assert WithPath(c, Some(path)).path.value == "/";
    }
  }

  /** Setting the stored path again changes nothing. */
  lemma WithPathIdempotent(c: Cookie, path: string)
    ensures var r := WithPath(c, Some(path));
      WithPath(r, r.path) == r
  {
    var p := WithPath(c, Some(path)).path.value;
    WithPathSpec(c, path);
    TrimNoop(p, TRIM_CHARS);
  }

  /** Setting the stored domain again, without punycode, changes nothing: it is already trimmed and lower-cased. */
  lemma WithDomainIdempotent(c: Cookie, domain: string, toAscii: string -> Option<string>)
    ensures var r := WithDomain(c, Some(domain), None, toAscii).value;
      WithDomain(r, r.domain, None, toAscii) == Ok(r)
  {
    var t := Trim(domain);
    TrimEnds(domain, TRIM_CHARS);
    var d := Lower(t);
    assert |d| > 0 ==> d[0] !in TRIM_CHARS && d[|d| - 1] !in TRIM_CHARS;
    TrimNoop(d, TRIM_CHARS);
    LowerIdempotent(t);
  }

  /** SameSite is accepted exactly when it trims and lower-cases to lax, strict or none. */
  lemma WithSameSiteSpec(c: Cookie, sameSite: string)
    ensures var r := WithSameSite(c, Some(sameSite));
      && (r.Ok? <==> Lower(Trim(sameSite)) in {"lax", "strict", "none"})
      && (r.Ok? ==> r.value.sameSite == Some(Lower(Trim(sameSite))))
  {
  }

  /** SameSite is case-insensitive: upper-case letters are accepted like lower-case ones. */
  lemma WithSameSiteCaseInsensitive(c: Cookie, sameSite: string)
    ensures WithSameSite(c, Some(Lower(sameSite))) == WithSameSite(c, Some(sameSite))
  {
    LowerTrim(sameSite);
    LowerIdempotent(Trim(sameSite));
  }

  /** Lower-casing commutes with trimming, since no trimmed character is a letter. */
  lemma {:induction false} LowerTrim(s: string)
    ensures Trim(Lower(s)) == Lower(Trim(s))
  {
    LowerTrimLeft(s);
    LowerTrimRight(TrimLeft(s, TRIM_CHARS));
  }

  lemma {:induction false} LowerTrimLeft(s: string)
    ensures TrimLeft(Lower(s), TRIM_CHARS) == Lower(TrimLeft(s, TRIM_CHARS))
    decreases |s|
  {
    if |s| > 0 {
      var l := Lower(s);
      LowerTrimChar(s[0]);
      assert l[0] == LowerChar(s[0]);
      if s[0] in TRIM_CHARS {
        calc {
          TrimLeft(l, TRIM_CHARS);
          TrimLeft(l[1..], TRIM_CHARS);
          { assert l[1..] == Lower(s[1..]); }
          TrimLeft(Lower(s[1..]), TRIM_CHARS);
          { LowerTrimLeft(s[1..]); }
          Lower(TrimLeft(s[1..], TRIM_CHARS));
          Lower(TrimLeft(s, TRIM_CHARS));
        }
      } else {
        assert TrimLeft(s, TRIM_CHARS) == s;
        assert TrimLeft(l, TRIM_CHARS) == l;
      }
    }
  }

  lemma {:induction false} LowerTrimRight(s: string)
    ensures TrimRight(Lower(s), TRIM_CHARS) == Lower(TrimRight(s, TRIM_CHARS))
    decreases |s|
  {
    if |s| > 0 {
      var l := Lower(s);
      var n := |s| - 1;
      LowerTrimChar(s[n]);
      assert l[n] == LowerChar(s[n]);
      if s[n] in TRIM_CHARS {
        calc {
          TrimRight(l, TRIM_CHARS);
          TrimRight(l[..n], TRIM_CHARS);
          { assert l[..n] == Lower(s[..n]); }
          TrimRight(Lower(s[..n]), TRIM_CHARS);
          { LowerTrimRight(s[..n]); }
          Lower(TrimRight(s[..n], TRIM_CHARS));
          Lower(TrimRight(s, TRIM_CHARS));
        }
      } else {
        assert TrimRight(s, TRIM_CHARS) == s;
        assert TrimRight(l, TRIM_CHARS) == l;
      }
    }
  }

  /** No trimmed character is a letter, so lower-casing keeps a character trimmable or not. */
  lemma LowerTrimChar(c: char)
    ensures LowerChar(c) in TRIM_CHARS <==> c in TRIM_CHARS
    ensures c in TRIM_CHARS ==> LowerChar(c) == c
  {
  }

  /** A present candidate's tag is written, an absent one's is not, given distinct tags. */
  lemma {:induction false} PresentTags(cs: seq<Candidate>, a: Attr)
    requires forall i, j :: 0 <= i < j < |cs| ==> cs[i].tag != cs[j].tag
    ensures a in Tags(Present(cs)) <==> exists i :: 0 <= i < |cs| && cs[i].tag == a && cs[i].present
  {
    if |cs| > 0 {
      PresentTags(cs[1..], a);
      var head := if cs[0].present then [(cs[0].tag, cs[0].text)] else [];
      assert Tags(Present(cs)) == Tags(head) + Tags(Present(cs[1..]));
      if a in Tags(Present(cs[1..])) {
        var i :| 0 <= i < |cs[1..]| && cs[1..][i].tag == a && cs[1..][i].present;
        assert cs[i + 1].tag == a;
      }
      if exists i :: 0 <= i < |cs| && cs[i].tag == a && cs[i].present {
        var i :| 0 <= i < |cs| && cs[i].tag == a && cs[i].present;
        if i > 0 {
          assert cs[1..][i - 1] == cs[i];
        } else {
          assert a in Tags(head);
        }
      }
    }
  }

  /** Writing the present candidates keeps their rank order. */
  lemma {:induction false} PresentOrdered(cs: seq<Candidate>)
    requires forall i, j :: 0 <= i < j < |cs| ==> Rank(cs[i].tag) < Rank(cs[j].tag)
    ensures forall i, j :: 0 <= i < j < |Present(cs)| ==> Rank(Present(cs)[i].0) < Rank(Present(cs)[j].0)
    ensures |cs| > 0 ==> forall i :: 0 <= i < |Present(cs)| ==> Rank(cs[0].tag) <= Rank(Present(cs)[i].0)
  {
    if |cs| > 0 {
      PresentOrdered(cs[1..]);
      var rest := Present(cs[1..]);
      var p := Present(cs);
      var head := if cs[0].present then [(cs[0].tag, cs[0].text)] else [];
      assert p == head + rest;
      if |cs| > 1 {
        assert cs[1..][0] == cs[1];
      }
      forall i | 0 <= i < |rest|
        ensures Rank(cs[0].tag) < Rank(rest[i].0)
      {
      }
    }
  }

  /** The candidate at position `k` is written exactly when it is present. */
  lemma PresentTagAt(cs: seq<Candidate>, k: nat)
    requires k < |cs|
    requires forall i, j :: 0 <= i < j < |cs| ==> cs[i].tag != cs[j].tag
    ensures cs[k].tag in Tags(Present(cs)) <==> cs[k].present
  {
    PresentTags(cs, cs[k].tag);
  }

  /** The attributes come in the fixed order, the name/value pair first, each present exactly when its field is set. */
  lemma AttributesOrder(c: Cookie, formatDate: int -> string)
    ensures var ts := Tags(Attributes(c, formatDate));
      && |ts| > 0 && ts[0] == NameValue
      && (forall i, j :: 0 <= i < j < |ts| ==> Rank(ts[i]) < Rank(ts[j]))
      && (Expires in ts <==> c.expiry.Some?)
      && (Domain in ts <==> c.domain.Some?)
      && (Path in ts <==> c.path.Some?)
      && (Secure in ts <==> c.secure)
      && (HttpOnly in ts <==> c.httpOnly)
      && (SameSite in ts <==> c.sameSite.Some?)
  {
    var cs := Candidates(c, formatDate);
    PresentOrdered(cs);
    PresentTagAt(cs, 1);
    PresentTagAt(cs, 2);
    PresentTagAt(cs, 3);
    PresentTagAt(cs, 4);
    PresentTagAt(cs, 5);
    PresentTagAt(cs, 6);
    assert Present(cs) == [(NameValue, c.name + "=" + c.value)] + Present(cs[1..]);
  }

  /** Rendering starts with "name=value". */
  lemma ToStringStarts(c: Cookie, now: int, formatDate: int -> string)
    requires ToString(c, now, formatDate).Ok?
    ensures var s := ToString(c, now, formatDate).value;
      var nv := c.name + "=" + c.value;
      |s| >= |nv| && s[..|nv|] == nv
  {
    var p := Prepared(c, now);
    var ts := Texts(Attributes(p, formatDate));
    assert ts[0] == c.name + "=" + c.value;
    if |ts| > 1 {
      assert ts == [ts[0]] + ts[1..];
      JoinCons(ts[0], ts[1..], "; ");
    }
  }

  /** Setting Secure makes any SameSite value renderable. */
  lemma SecureRenders(c: Cookie, now: int, formatDate: int -> string)
    ensures ToString(WithSecure(c, true), now, formatDate).Ok?
  {
  }

  /** A cookie with an empty value and an expiry renders as already expired. */
  lemma EmptyValueExpires(c: Cookie, now: int, formatDate: int -> string)
    requires c.expiry.Some? && c.value == ""
    requires now >= DELETION_TIMESTAMP
    ensures |Attributes(Prepared(c, now), formatDate)| >= 2
    ensures Attributes(Prepared(c, now), formatDate)[1]
         == (Expires, "Expires=" + formatDate(DELETION_TIMESTAMP) + "; Max-Age=0")
  {
    var p := Prepared(c, now);
    assert p.maxAge == 0 && p.expiry == Some(DELETION_TIMESTAMP);
    assert IntToString(0) == "0";
    var cs := Candidates(p, formatDate);
    assert cs[1] == Candidate(true, Expires, "Expires=" + formatDate(DELETION_TIMESTAMP) + "; Max-Age=0");
    var rest := cs[1..];
    assert Present(cs) == [(cs[0].tag, cs[0].text)] + Present(rest);
    assert rest[0] == cs[1];
    assert Present(rest) == [(cs[1].tag, cs[1].text)] + Present(rest[1..]);
  }
}
