/**
 * Header normalisation (src/HeaderUtil.php).
 *
 * `Normalize` turns a loosely shaped header array into one field per
 * normalised name. Fields with the same name are combined with ", " in the
 * manner of section 5.3 of RFC 9110. `Set-Cookie` is the exception: it may
 * not be combined, so its lines are kept in a jar keyed by cookie name,
 * where a later cookie replaces an earlier one of the same name (section 5.3
 * of RFC 6265).
 */
module HeaderUtil {
  import opened Wrappers
  import opened Str
  import opened PhpValues
  import OrderedMap

  /** Characters deleted from a header name before it is split. */
  const NAME_STRIPPED: set<char> := {' ', '\r', '\n'}

  const LINE_BREAKS: set<char> := {'\r', '\n'}

  const SET_COOKIE: string := "Set-Cookie"

  /** A normalised field: one combined line, or the cookie jar of `Set-Cookie`. */
  datatype Field = Line(value: string) | Cookies(jar: seq<(string, string)>)

  type Headers = seq<(string, Field)>

  predicate NoneOf(s: string, cs: set<char>) {
    forall i :: 0 <= i < |s| ==> s[i] !in cs
  }

  // ---------------------------------------------------------------------------
  // normalizeHeaderName

  function NormalizePart(p: string): string {
    UcFirst(Lower(Trim(p)))
  }

  function NormalizeParts(ps: seq<string>): (r: seq<string>)
    ensures |r| == |ps|
    ensures forall k :: 0 <= k < |ps| ==> r[k] == NormalizePart(ps[k])
  {
    seq(|ps|, k requires 0 <= k < |ps| => NormalizePart(ps[k]))
  }

  /** `normalizeHeaderName`: e.g. "con TENT- lenGTh" becomes "Content-Length". */
  function NormalizeHeaderName(name: string): string {
    Join(NormalizeParts(Split(Remove(name, NAME_STRIPPED), '-')), "-")
  }

  /** Case mapping neither creates nor removes a character of a non-letter set. */
  lemma CaseMapKeeps(c: char, cs: set<char>)
    requires forall x :: x in cs ==> !('a' <= x <= 'z') && !('A' <= x <= 'Z')
    ensures LowerChar(c) in cs <==> c in cs
    ensures UpperChar(c) in cs <==> c in cs
  {
  }

  lemma NormalizePartNoneOf(p: string, cs: set<char>)
    requires forall x :: x in cs ==> !('a' <= x <= 'z') && !('A' <= x <= 'Z')
    requires NoneOf(p, cs)
    ensures NoneOf(NormalizePart(p), cs)
  {
    var q := NormalizePart(p);
    forall i | 0 <= i < |q|
      ensures q[i] !in cs
    {
      var c := NormalizePartChar(p, i);
      CaseMapKeeps(c, cs);
      CaseMapKeeps(LowerChar(c), cs);
    }
  }

  /** Each character of a normalised part is a case-mapped character of the input. */
  lemma NormalizePartChar(p: string, i: nat) returns (c: char)
    requires i < |NormalizePart(p)|
    ensures c in p && i < |Trim(p)| && c == Trim(p)[i]
    ensures i == 0 || i == |NormalizePart(p)| - 1 ==> c !in TRIM_CHARS
    ensures NormalizePart(p)[i] == if i == 0 then UpperChar(LowerChar(c)) else LowerChar(c)
  {
    var t := Trim(p);
    TrimShape(p, TRIM_CHARS);
    var k := |p| - |TrimLeft(p, TRIM_CHARS)|;
    c := t[i];
    assert c == p[k + i];
    var l := Lower(t);
    assert l[i] == LowerChar(c);
  }

  lemma {:induction false} JoinNoneOf(ps: seq<string>, sep: string, cs: set<char>)
    requires NoneOf(sep, cs)
    requires forall k :: 0 <= k < |ps| ==> NoneOf(ps[k], cs)
    ensures NoneOf(Join(ps, sep), cs)
  {
    if |ps| > 1 {
      JoinNoneOf(ps[1..], sep, cs);
      var j := Join(ps[1..], sep);
      assert Join(ps, sep) == ps[0] + sep + j;
      assert forall i :: |ps[0]| + |sep| <= i < |ps[0]| + |sep| + |j| ==> (ps[0] + sep + j)[i] == j[i - |ps[0]| - |sep|];
    }
  }

  /** A normalised name holds no space, CR or LF. */
  lemma NameHasNoBlanks(name: string)
    ensures NoneOf(NormalizeHeaderName(name), NAME_STRIPPED)
  {
    var s := Remove(name, NAME_STRIPPED);
    var ps := Split(s, '-');
    var qs := NormalizeParts(ps);
    assert forall k :: 0 <= k < |qs| ==> NoneOf(qs[k], NAME_STRIPPED) by {
      forall k | 0 <= k < |qs|
        ensures NoneOf(qs[k], NAME_STRIPPED)
      {
        SplitNoneOf(s, '-', NAME_STRIPPED, k);
        NormalizePartNoneOf(ps[k], NAME_STRIPPED);
      }
    }
    JoinNoneOf(qs, "-", NAME_STRIPPED);
  }

  /** The pieces of `explode` hold no character the input does not hold. */
  lemma {:induction false} SplitNoneOf(s: string, d: char, cs: set<char>, k: nat)
    requires NoneOf(s, cs)
    requires k < |Split(s, d)|
    ensures NoneOf(Split(s, d)[k], cs)
    decreases |s|
  {
    var i := FirstIndex(s, d);
    if i < |s| && k > 0 {
      SplitNoneOf(s[i + 1..], d, cs, k - 1);
    }
  }

  lemma LowerUcFirst(s: string)
    ensures Lower(UcFirst(s)) == Lower(s)
  {
  }

  /** Normalising a part twice changes nothing more. */
  lemma NormalizePartIdempotent(p: string)
    ensures NormalizePart(NormalizePart(p)) == NormalizePart(p)
  {
    var t := Trim(p);
    var q := NormalizePart(p);
    calc {
      NormalizePart(q);
      UcFirst(Lower(Trim(q)));
      { NormalizePartEnds(p); TrimNoop(q, TRIM_CHARS); }
      UcFirst(Lower(q));
      { LowerUcFirst(Lower(t)); LowerIdempotent(t); }
      UcFirst(Lower(t));
      q;
    }
  }

  /** A normalised part neither starts nor ends with white space. */
  lemma NormalizePartEnds(p: string)
    ensures var q := NormalizePart(p); |q| > 0 ==> q[0] !in TRIM_CHARS && q[|q| - 1] !in TRIM_CHARS
  {
    var q := NormalizePart(p);
    if |q| > 0 {
      var first := NormalizePartChar(p, 0);
      var last := NormalizePartChar(p, |q| - 1);
      CaseMapKeepsBlank(first);
      CaseMapKeepsBlank(last);
    }
  }

  lemma CaseMapKeepsBlank(c: char)
    requires c !in TRIM_CHARS
    ensures LowerChar(c) !in TRIM_CHARS && UpperChar(LowerChar(c)) !in TRIM_CHARS
  {
  }

  /** `normalizeHeaderName` is idempotent. */
  lemma NormalizeHeaderNameIdempotent(name: string)
    ensures NormalizeHeaderName(NormalizeHeaderName(name)) == NormalizeHeaderName(name)
  {
    var ps := Split(Remove(name, NAME_STRIPPED), '-');
    var qs := NormalizeParts(ps);
    var r := Join(qs, "-");
    assert r == NormalizeHeaderName(name);
    calc {
      NormalizeHeaderName(r);
      Join(NormalizeParts(Split(Remove(r, NAME_STRIPPED), '-')), "-");
      { NameHasNoBlanks(name); RemoveNoop(r, NAME_STRIPPED); }
      Join(NormalizeParts(Split(r, '-')), "-");
      { PartsHaveNoDash(ps); SplitJoin(qs, '-'); }
      Join(NormalizeParts(qs), "-");
      { NormalizePartsIdempotent(ps); }
      r;
    }
  }

  /** Normalised pieces of `explode` hold no '-'. */
  lemma PartsHaveNoDash(ps: seq<string>)
    requires forall k :: 0 <= k < |ps| ==> '-' !in ps[k]
    ensures forall k :: 0 <= k < |ps| ==> '-' !in NormalizeParts(ps)[k]
  {
    forall k | 0 <= k < |ps|
      ensures '-' !in NormalizeParts(ps)[k]
    {
      NormalizePartNoneOf(ps[k], {'-'});
    }
  }

  lemma NormalizePartsIdempotent(ps: seq<string>)
    ensures NormalizeParts(NormalizeParts(ps)) == NormalizeParts(ps)
  {
    var qs := NormalizeParts(ps);
    forall k | 0 <= k < |qs|
      ensures NormalizePart(qs[k]) == qs[k]
    {
      NormalizePartIdempotent(ps[k]);
    }
  }

  // ---------------------------------------------------------------------------
  // trimValues

  /** One value of `trimValues`: null is '', CR and LF are deleted, then the value is trimmed. */
  function TrimValue(v: Value): (r: Result<string>)
    ensures r.Ok? <==> IsScalar(v) || v.VNull?
    ensures r.Err? ==> r.error == InvalidArgument("value is expected to be scalar or null")
  {
    if IsScalar(v) || v.VNull? then Ok(Trim(Remove(ToStr(v), LINE_BREAKS)))
    else Err(InvalidArgument("value is expected to be scalar or null"))
  }

  /** A trimmed value holds no line break and starts and ends with no white space. */
  lemma TrimValueShape(v: Value)
    requires IsScalar(v) || v.VNull?
    ensures var r := TrimValue(v).value;
            && NoneOf(r, LINE_BREAKS)
            && (|r| > 0 ==> r[0] !in TRIM_CHARS && r[|r| - 1] !in TRIM_CHARS)
  {
    TrimShape(Remove(ToStr(v), LINE_BREAKS), TRIM_CHARS);
  }

  /** `trimValues`: fails iff some value is neither scalar nor null. */
  function TrimValues(vs: seq<Value>): (r: Result<seq<string>>)
    ensures r.Ok? <==> forall i :: 0 <= i < |vs| ==> IsScalar(vs[i]) || vs[i].VNull?
    ensures r.Ok? ==> |r.value| == |vs| && forall i :: 0 <= i < |vs| ==> r.value[i] == TrimValue(vs[i]).value
  {
    if |vs| == 0 then Ok([])
    else
      var head :- TrimValue(vs[0]);
      var tail :- TrimValues(vs[1..]);
      Ok([head] + tail)
  }

  function Values(entries: seq<(Key, Value)>): (vs: seq<Value>)
    ensures |vs| == |entries|
    ensures forall i :: 0 <= i < |entries| ==> vs[i] == entries[i].1
  {
    seq(|entries|, i requires 0 <= i < |entries| => entries[i].1)
  }

  /** The trimmed lines of one header value: each element of an array, or the value itself. */
  function Lines(v: Value): Result<seq<string>> {
    if v.VArr? then TrimValues(Values(v.entries)) else TrimValues([v])
  }

  // ---------------------------------------------------------------------------
  // normalizeKV and normalize

  /** `normalizeKV`: a "name: value" string, or the first pair of an array if its key is a string. */
  function NormalizeKV(v: Value): (r: Option<(string, Value)>)
    ensures v.VStr? ==> (r.Some? <==> ':' in v.s)
    ensures r.Some? && v.VStr? ==> r.value.1.VStr? && v.s == r.value.0 + ":" + r.value.1.s && ':' !in r.value.0
    ensures v.VArr? ==> (r.Some? <==> |v.entries| > 0 && v.entries[0].0.StrKey?)
    ensures r.Some? && v.VArr? ==> r.value == (v.entries[0].0.s, v.entries[0].1)
    ensures !v.VStr? && !v.VArr? ==> r.None?
  {
    match v
    case VStr(s) =>
      var (name, rest) := SplitFirst(s, ':');
      if rest.Some? then Some((name, VStr(rest.value))) else None
    case VArr(e) =>
      if |e| > 0 && e[0].0.StrKey? then Some((e[0].0.s, e[0].1)) else None
    case _ => None
  }

  /** The name and value an input entry stands for, or nothing when it is skipped. */
  function Entry(key: Key, v: Value): Option<(string, Value)> {
    if IsNumericKey(key) then NormalizeKV(v) else Some((KeyString(key), v))
  }

  /** The jar key of a cookie line: the lowercased, trimmed text before the first '='. */
  function CookieName(line: string): string {
    Trim(Lower(SplitFirst(line, '=').0))
  }

  /** Stores the cookie lines in order, each under its cookie name. */
  function PutCookies(jar: seq<(string, string)>, lines: seq<string>): seq<(string, string)> {
    if |lines| == 0 then jar
    else
      var last := lines[|lines| - 1];
      OrderedMap.Put(PutCookies(jar, lines[..|lines| - 1]), CookieName(last), last)
  }

  function JarOf(f: Option<Field>): seq<(string, string)> {
    if f.Some? && f.value.Cookies? then f.value.jar else []
  }

  /** Adds cookie lines to the Set-Cookie jar; no lines leave the fields alone. */
  function AddCookies(acc: Headers, lines: seq<string>): Headers {
    // each line is already trimmed, so the second `trim` of the source is a no-op
    if |lines| == 0 then acc
    else OrderedMap.Put(acc, SET_COOKIE, Cookies(PutCookies(JarOf(OrderedMap.Get(acc, SET_COOKIE)), lines)))
  }

  /** Combines one line into the ordinary field `name`. */
  function AddLine(acc: Headers, name: string, line: string): Headers {
    var existing := OrderedMap.Get(acc, name);
    if existing.Some? && line == "" then acc
    else if existing.Some? && existing.value.Line? && !Empty(VStr(existing.value.value)) then
      OrderedMap.Put(acc, name, Line(existing.value.value + ", " + line))
    else
      OrderedMap.Put(acc, name, Line(line))
  }

  /** Processes one header entry on top of the fields normalised so far. */
  function Step(acc: Headers, key: Key, v: Value): Result<Headers> {
    match Entry(key, v)
    case None => Ok(acc)
    case Some((rawName, val)) =>
      var name := NormalizeHeaderName(rawName);
      var lines :- Lines(val);
      if name == SET_COOKIE then Ok(AddCookies(acc, lines))
      else Ok(AddLine(acc, name, Join(lines, ", ")))
  }

  /** `normalize`: the entries are processed in order. */
  function Normalize(hs: seq<(Key, Value)>): Result<Headers> {
    if |hs| == 0 then Ok([])
    else
      var acc :- Normalize(hs[..|hs| - 1]);
      Step(acc, hs[|hs| - 1].0, hs[|hs| - 1].1)
  }

  // ---------------------------------------------------------------------------
  // reference definitions: each name on its own

  /** The combined line each entry contributes to field `name`, in input order. */
  function FieldLines(hs: seq<(Key, Value)>, name: string): seq<string> {
    if |hs| == 0 then []
    else
      var prev := FieldLines(hs[..|hs| - 1], name);
      match Entry(hs[|hs| - 1].0, hs[|hs| - 1].1)
      case Some((n, v)) =>
        if NormalizeHeaderName(n) == name && Lines(v).Ok? then prev + [Join(Lines(v).value, ", ")] else prev
      case None => prev
  }

  /**
   * How the contributions to one field combine: an empty contribution to an
   * existing field is skipped, one following an empty ("" or "0") value
   * replaces it, and otherwise it is appended after ", ".
   */
  function Combine(lines: seq<string>): Option<string> {
    if |lines| == 0 then None else CombineStep(Combine(lines[..|lines| - 1]), lines[|lines| - 1])
  }

  function CombineStep(prev: Option<string>, l: string): Option<string> {
    match prev
    case None => Some(l)
    case Some(s) => if l == "" then Some(s) else if s == "" || s == "0" then Some(l) else Some(s + ", " + l)
  }

  function AsLine(o: Option<string>): Option<Field> {
    if o.Some? then Some(Line(o.value)) else None
  }

  /** Every cookie line of the input, in order. */
  function CookieLines(hs: seq<(Key, Value)>): seq<string> {
    if |hs| == 0 then []
    else
      var prev := CookieLines(hs[..|hs| - 1]);
      match Entry(hs[|hs| - 1].0, hs[|hs| - 1].1)
      case Some((n, v)) =>
        if NormalizeHeaderName(n) == SET_COOKIE && Lines(v).Ok? then prev + Lines(v).value else prev
      case None => prev
  }

  /** The last line carrying cookie name `c`. */
  function LastCookie(lines: seq<string>, c: string): Option<string> {
    if |lines| == 0 then None
    else if CookieName(lines[|lines| - 1]) == c then Some(lines[|lines| - 1])
    else LastCookie(lines[..|lines| - 1], c)
  }

  // ---------------------------------------------------------------------------
  // properties of normalize

  /** A line either leaves the fields alone or puts a new line under `name`. */
  lemma AddLineIsPut(acc: Headers, name: string, line: string) returns (f: Field)
    ensures AddLine(acc, name, line) == acc || AddLine(acc, name, line) == OrderedMap.Put(acc, name, f)
  {
    var existing := OrderedMap.Get(acc, name);
    if existing.Some? && existing.value.Line? && !Empty(VStr(existing.value.value)) {
      f := Line(existing.value.value + ", " + line);
    } else {
      f := Line(line);
    }
  }

  lemma AddLineOther(acc: Headers, name: string, line: string, other: string)
    requires other != name
    ensures OrderedMap.Get(AddLine(acc, name, line), other) == OrderedMap.Get(acc, other)
  {
    var r := AddLine(acc, name, line);
    var f := AddLineIsPut(acc, name, line);
    if r != acc {
      OrderedMap.PutOther(acc, name, f, other);
    }
  }

  lemma AddLineSame(acc: Headers, name: string, line: string)
    requires var g := OrderedMap.Get(acc, name); g.None? || g.value.Line?
    ensures var g := OrderedMap.Get(acc, name);
            OrderedMap.Get(AddLine(acc, name, line), name) ==
              AsLine(CombineStep(if g.Some? then Some(g.value.value) else None, line))
  {
    var g := OrderedMap.Get(acc, name);
    if !(g.Some? && line == "") {
      var r := AddLine(acc, name, line);
      var f := AddLineIsPut(acc, name, line);
      OrderedMap.PutGet(acc, name, f);
    }
  }

  lemma AddCookiesOther(acc: Headers, lines: seq<string>, other: string)
    requires other != SET_COOKIE
    ensures OrderedMap.Get(AddCookies(acc, lines), other) == OrderedMap.Get(acc, other)
  {
    if |lines| > 0 {
      OrderedMap.PutOther(acc, SET_COOKIE, Cookies(PutCookies(JarOf(OrderedMap.Get(acc, SET_COOKIE)), lines)), other);
    }
  }

  /** A step leaves every field it does not address alone. */
  lemma StepOther(acc: Headers, key: Key, v: Value, name: string)
    requires Step(acc, key, v).Ok?
    requires Entry(key, v).None? || NormalizeHeaderName(Entry(key, v).value.0) != name
    ensures OrderedMap.Get(Step(acc, key, v).value, name) == OrderedMap.Get(acc, name)
  {
    if Entry(key, v).Some? {
      var e := Entry(key, v).value;
      var n := NormalizeHeaderName(e.0);
      var lines := Lines(e.1).value;
      if n == SET_COOKIE {
        AddCookiesOther(acc, lines, name);
      } else {
        AddLineOther(acc, n, Join(lines, ", "), name);
      }
    }
  }

  /** A step on an ordinary field combines its line into the field. */
  lemma StepSame(acc: Headers, key: Key, v: Value)
    requires Step(acc, key, v).Ok?
    requires Entry(key, v).Some?
    requires NormalizeHeaderName(Entry(key, v).value.0) != SET_COOKIE
    requires var g := OrderedMap.Get(acc, NormalizeHeaderName(Entry(key, v).value.0)); g.None? || g.value.Line?
    ensures var name := NormalizeHeaderName(Entry(key, v).value.0);
            var g := OrderedMap.Get(acc, name);
            OrderedMap.Get(Step(acc, key, v).value, name) ==
              AsLine(CombineStep(if g.Some? then Some(g.value.value) else None, Join(Lines(Entry(key, v).value.1).value, ", ")))
  {
    var e := Entry(key, v).value;
    AddLineSame(acc, NormalizeHeaderName(e.0), Join(Lines(e.1).value, ", "));
  }

  lemma NormalizeUnfold(hs: seq<(Key, Value)>)
    requires |hs| > 0
    ensures Normalize(hs).Ok? ==> Normalize(hs[..|hs| - 1]).Ok?
    ensures Normalize(hs[..|hs| - 1]).Ok? ==>
      Normalize(hs) == Step(Normalize(hs[..|hs| - 1]).value, hs[|hs| - 1].0, hs[|hs| - 1].1)
  {
  }

  /** An entry whose value is to be trimmed but is neither scalar nor null. */
  predicate BadEntry(e: (Key, Value)) {
    Entry(e.0, e.1).Some? && Lines(Entry(e.0, e.1).value.1).Err?
  }

  /** Normalisation fails exactly when some value to be trimmed is neither scalar nor null. */
  lemma {:induction false} NormalizeFails(hs: seq<(Key, Value)>)
    ensures Normalize(hs).Err? <==> exists i :: 0 <= i < |hs| && BadEntry(hs[i])
  {
    if |hs| > 0 {
      var n := |hs| - 1;
      var p := hs[..n];
      NormalizeFails(p);
      NormalizeUnfold(hs);
      if Normalize(p).Err? {
        var i :| 0 <= i < |p| && BadEntry(p[i]);
        assert hs[i] == p[i];
      } else if BadEntry(hs[n]) {
        assert Normalize(hs).Err?;
      } else {
        assert Normalize(hs).Ok?;
        assert forall i :: 0 <= i < |p| ==> !BadEntry(p[i]);
        forall i | 0 <= i < |hs|
          ensures !BadEntry(hs[i])
        {
          if i < n {
            assert hs[i] == p[i];
          } else {
            assert i == n;
          }
        }
      }
    }
  }

  /** Normalised names are unique, and so are the cookie names in the jar. */
  lemma {:induction false} NormalizeUnique(hs: seq<(Key, Value)>)
    requires Normalize(hs).Ok?
    ensures OrderedMap.UniqueKeys(Normalize(hs).value)
    ensures OrderedMap.UniqueKeys(JarOf(OrderedMap.Get(Normalize(hs).value, SET_COOKIE)))
  {
    if |hs| > 0 {
      var p := hs[..|hs| - 1];
      var key, v := hs[|hs| - 1].0, hs[|hs| - 1].1;
      NormalizeUnfold(hs);
      NormalizeUnique(p);
      var acc := Normalize(p).value;
      var r := Step(acc, key, v).value;
      if r != acc {
        var e := Entry(key, v).value;
        var name := NormalizeHeaderName(e.0);
        var lines := Lines(e.1).value;
        if name == SET_COOKIE {
          var f := Cookies(PutCookies(JarOf(OrderedMap.Get(acc, name)), lines));
          assert r == OrderedMap.Put(acc, name, f);
          OrderedMap.PutUnique(acc, name, f);
          PutCookiesUnique(JarOf(OrderedMap.Get(acc, name)), lines);
          OrderedMap.PutGet(acc, name, f);
        } else {
          var f := AddLineIsPut(acc, name, Join(lines, ", "));
          OrderedMap.PutUnique(acc, name, f);
          OrderedMap.PutOther(acc, name, f, SET_COOKIE);
        }
      }
    }
  }

  lemma {:induction false} PutCookiesUnique(jar: seq<(string, string)>, lines: seq<string>)
    requires OrderedMap.UniqueKeys(jar)
    ensures OrderedMap.UniqueKeys(PutCookies(jar, lines))
  {
    if |lines| > 0 {
      var last := lines[|lines| - 1];
      PutCookiesUnique(jar, lines[..|lines| - 1]);
      OrderedMap.PutUnique(PutCookies(jar, lines[..|lines| - 1]), CookieName(last), last);
    }
  }

  /** In the jar, each cookie name holds the last line with that name. */
  lemma {:induction false} PutCookiesLast(jar: seq<(string, string)>, lines: seq<string>, c: string)
    ensures OrderedMap.Get(PutCookies(jar, lines), c) ==
      if LastCookie(lines, c).Some? then LastCookie(lines, c) else OrderedMap.Get(jar, c)
  {
    if |lines| > 0 {
      var last := lines[|lines| - 1];
      var prev := PutCookies(jar, lines[..|lines| - 1]);
      PutCookiesLast(jar, lines[..|lines| - 1], c);
      if CookieName(last) == c {
        OrderedMap.PutGet(prev, c, last);
      } else {
        OrderedMap.PutOther(prev, CookieName(last), last, c);
      }
    }
  }

  lemma {:induction false} LastCookieAppend(a: seq<string>, b: seq<string>, c: string)
    ensures LastCookie(a + b, c) == if LastCookie(b, c).Some? then LastCookie(b, c) else LastCookie(a, c)
    decreases |b|
  {
    if |b| > 0 {
      var x, b' := b[|b| - 1], b[..|b| - 1];
      assert (a + b)[..|a + b| - 1] == a + b' && (a + b)[|a + b| - 1] == x;
      if CookieName(x) == c {
        assert LastCookie(a + b, c) == Some(x) == LastCookie(b, c);
      } else {
        LastCookieAppend(a, b', c);
        assert LastCookie(a + b, c) == LastCookie(a + b', c);
        assert LastCookie(b, c) == LastCookie(b', c);
      }
    } else {
      assert a + b == a;
    }
  }

  /**
   * Every field other than Set-Cookie holds the combination of the lines
   * addressed to it, in input order, whatever else is interleaved.
   */
  lemma {:induction false} NormalizeCombines(hs: seq<(Key, Value)>, name: string)
    requires Normalize(hs).Ok?
    requires name != SET_COOKIE
    ensures OrderedMap.Get(Normalize(hs).value, name) == AsLine(Combine(FieldLines(hs, name)))
  {
    if |hs| > 0 {
      var p := hs[..|hs| - 1];
      var key, v := hs[|hs| - 1].0, hs[|hs| - 1].1;
      NormalizeUnfold(hs);
      NormalizeCombines(p, name);
      var acc := Normalize(p).value;
      var e := Entry(key, v);
      if e.None? || NormalizeHeaderName(e.value.0) != name {
        StepOther(acc, key, v, name);
      } else {
        StepSame(acc, key, v);
        var ls := FieldLines(p, name);
        var l := Join(Lines(e.value.1).value, ", ");
        assert FieldLines(hs, name) == ls + [l];
        assert (ls + [l])[..|ls|] == ls;
      }
    }
  }

  /**
   * The Set-Cookie jar maps each cookie name to the last cookie line with that
   * name, and the field is present iff the input carries a cookie line.
   */
  lemma {:induction false} NormalizeCookies(hs: seq<(Key, Value)>, c: string)
    requires Normalize(hs).Ok?
    ensures OrderedMap.Get(JarOf(OrderedMap.Get(Normalize(hs).value, SET_COOKIE)), c) == LastCookie(CookieLines(hs), c)
    ensures OrderedMap.HasKey(Normalize(hs).value, SET_COOKIE) <==> |CookieLines(hs)| > 0
    ensures OrderedMap.HasKey(Normalize(hs).value, SET_COOKIE) ==> OrderedMap.Get(Normalize(hs).value, SET_COOKIE).value.Cookies?
  {
    if |hs| > 0 {
      var p := hs[..|hs| - 1];
      var key, v := hs[|hs| - 1].0, hs[|hs| - 1].1;
      NormalizeUnfold(hs);
      NormalizeCookies(p, c);
      var acc := Normalize(p).value;
      var e := Entry(key, v);
      if e.None? || NormalizeHeaderName(e.value.0) != SET_COOKIE {
        StepOther(acc, key, v, SET_COOKIE);
        assert CookieLines(hs) == CookieLines(p);
      } else {
        var lines := Lines(e.value.1).value;
        assert Step(acc, key, v).value == AddCookies(acc, lines);
        assert CookieLines(hs) == CookieLines(p) + lines;
        LastCookieAppend(CookieLines(p), lines, c);
        if |lines| > 0 {
          var jar := PutCookies(JarOf(OrderedMap.Get(acc, SET_COOKIE)), lines);
          OrderedMap.PutGet(acc, SET_COOKIE, Cookies(jar));
          PutCookiesLast(JarOf(OrderedMap.Get(acc, SET_COOKIE)), lines, c);
        } else {
          assert CookieLines(p) + lines == CookieLines(p);
        }
      }
    }
  }
}
