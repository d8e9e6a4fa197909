/**
 * The header sequence of one concrete response, worked out end to end:
 * a 204 with `x-foo: bar`, `x-bar: foo` and the cookies "cookie=one",
 * "cookie2=two" and "cookie=three" (tests/Emitter/SapiEmitterTest.php,
 * `testSetHeaders`). The later cookie of the same name replaces the earlier
 * one in place, so "cookie=three" goes out before "cookie2=two".
 *
 * The steps are general lemmas over string parameters; each fact about the
 * literal strings themselves is a small lemma of its own, so that the solver
 * evaluates one literal computation at a time.
 */
module SapiExample {
  import opened Wrappers
  import opened Str
  import opened PhpValues
  import opened HttpMessage
  import HeaderUtil
  import OrderedMap
  import StreamUtil
  import ResponseEmitter
  import opened SapiEmitter

  const COOKIE_ONE: string := "cookie=one"
  const COOKIE_TWO: string := "cookie2=two"
  const COOKIE_THREE: string := "cookie=three"

  /** An empty, seekable body, as a stream factory creates it. */
  const EMPTY_BODY: StreamUtil.Stream := StreamUtil.Stream("", 0, Some(0), true, true, true)

  /** A fresh 204 response. */
  function NoContent(): Response {
    Message(StatusLine(204, "No Content"), "1.1", [], EMPTY_BODY)
  }

  /** The response of the example, built as the test builds it. */
  function Example(): Response {
    var m := WithHeader(WithHeader(WithHeader(NoContent(), "x-foo", "foo"), "x-foo", "bar"), "x-bar", "foo");
    WithAddedHeader(WithAddedHeader(WithAddedHeader(m, "set-cookie", COOKIE_ONE), "set-cookie", COOKIE_TWO),
                    "set-cookie", COOKIE_THREE)
  }

  /** The calls the test expects: the fields, the cookies, then the status line with its code. */
  const CALLS: seq<HeaderCall> := [
    HeaderCall("X-Foo: bar", true, 0),
    HeaderCall("X-Bar: foo", true, 0),
    HeaderCall("Set-Cookie: cookie=three", false, 0),
    HeaderCall("Set-Cookie: cookie2=two", false, 0),
    HeaderCall("HTTP/1.1 204 No Content", true, 204)]

  /** The calls the emitter makes for the example, with the buffer size the test uses. */
  lemma SetHeadersExample()
    ensures ResponseEmitter.NewEmitter(Example(), 8192, ResponseEmitter.AsWritten).Ok?
    ensures EmitHeaders(ResponseEmitter.NewEmitter(Example(), 8192, ResponseEmitter.AsWritten).value.response) == CALLS
  {
    ExampleHeaders();
    BuiltCalls();
  }

  // ---------------------------------------------------------------------------
  // the message

  const FIELDS: HeaderMap := [
    ("x-foo", HeaderField("x-foo", ["bar"])),
    ("x-bar", HeaderField("x-bar", ["foo"])),
    ("set-cookie", HeaderField("set-cookie", [COOKIE_ONE, COOKIE_TWO, COOKIE_THREE]))]

  /** The response the builder leaves. */
  function Built(): Response {
    NoContent().(headers := FIELDS)
  }

  /** The header fields the builder leaves: the second x-foo replaced the first, the cookies are appended. */
  lemma ExampleHeaders()
    ensures Example() == Built()
  {
    LowerKeeps("x-foo");
    LowerKeeps("x-bar");
    LowerKeeps("set-cookie");
    BuildChain(NoContent(), "x-foo", "x-bar", "set-cookie", "foo", "bar", "foo", COOKIE_ONE, COOKIE_TWO, COOKIE_THREE);
  }

  /** The builder steps of the example, for any three distinct lowercase names. */
  lemma BuildChain(m: Message, a: string, b: string, c: string, v0: string, v1: string, v2: string,
                   c1: string, c2: string, c3: string)
    requires m.headers == [] && Lower(a) == a && Lower(b) == b && Lower(c) == c
    requires a != b && a != c && b != c
    ensures
      var m3 := WithHeader(WithHeader(WithHeader(m, a, v0), a, v1), b, v2);
      WithAddedHeader(WithAddedHeader(WithAddedHeader(m3, c, c1), c, c2), c, c3)
      == m.(headers := [(a, HeaderField(a, [v1])), (b, HeaderField(b, [v2])), (c, HeaderField(c, [c1, c2, c3]))])
  {
    var fa := (a, HeaderField(a, [v1]));
    var fb := (b, HeaderField(b, [v2]));
    var m1 := WithHeader(m, a, v0);
    SetNew(m, a, v0);
    var m2 := WithHeader(m1, a, v1);
    SetFirst(m1, a, v1);
    assert m2.headers == [fa];
    var m3 := WithHeader(m2, b, v2);
    SetNew(m2, b, v2);
    assert m3.headers == [fa, fb];
    var m4 := WithAddedHeader(m3, c, c1);
    AddNew(m3, c, c1);
    assert m4.headers == [fa, fb, (c, HeaderField(c, [c1]))];
    var m5 := WithAddedHeader(m4, c, c2);
    AddLast(m4, c, c2);
    assert [c1] + [c2] == [c1, c2];
    assert m5.headers == [fa, fb, (c, HeaderField(c, [c1, c2]))];
    assert [c1, c2] + [c3] == [c1, c2, c3];
    AddLast(m5, c, c3);
  }

  /** `withHeader` of a name not yet present appends the field. */
  lemma SetNew(m: Message, name: string, value: string)
    requires Lower(name) == name && forall j :: 0 <= j < |m.headers| ==> m.headers[j].0 != name
    ensures WithHeader(m, name, value) == m.(headers := m.headers + [(name, HeaderField(name, [value]))])
  {
    OrderedMap.IndexOfAt(m.headers, name, |m.headers|);
  }

  /** `withHeader` of the name of the first field replaces that field. */
  lemma SetFirst(m: Message, name: string, value: string)
    requires Lower(name) == name && |m.headers| > 0 && m.headers[0].0 == name
    ensures WithHeader(m, name, value) == m.(headers := m.headers[0 := (name, HeaderField(name, [value]))])
  {
    OrderedMap.IndexOfAt(m.headers, name, 0);
  }

  /** `withAddedHeader` of a name not yet present appends the field with the one value. */
  lemma AddNew(m: Message, name: string, value: string)
    requires Lower(name) == name && forall j :: 0 <= j < |m.headers| ==> m.headers[j].0 != name
    ensures WithAddedHeader(m, name, value) == m.(headers := m.headers + [(name, HeaderField(name, [value]))])
  {
    OrderedMap.IndexOfAt(m.headers, name, |m.headers|);
    assert OrderedMap.Get(m.headers, name).None?;
    assert GetHeader(m, name) + [value] == [value];
  }

  /** `withAddedHeader` of the name of the last field appends the value to it. */
  lemma AddLast(m: Message, name: string, value: string)
    requires Lower(name) == name && |m.headers| > 0 && m.headers[|m.headers| - 1].0 == name
    requires forall j :: 0 <= j < |m.headers| - 1 ==> m.headers[j].0 != name
    ensures var n := |m.headers| - 1;
      WithAddedHeader(m, name, value)
      == m.(headers := m.headers[n := (name, HeaderField(name, m.headers[n].1.values + [value]))])
  {
    OrderedMap.IndexOfAt(m.headers, name, |m.headers| - 1);
    assert GetHeader(m, name) == m.headers[|m.headers| - 1].1.values;
  }

  /** Lowercase names stay as they are. */
  lemma LowerKeeps(s: string)
    requires forall i :: 0 <= i < |s| ==> !('A' <= s[i] <= 'Z')
    ensures Lower(s) == s
  {
  }

  /** A 204 has no body, so the emitter only drops an absent Content-Length and rewinds. */
  lemma EmitterKeepsBuilt()
    ensures ResponseEmitter.NewEmitter(Built(), 8192, ResponseEmitter.AsWritten).Ok?
    ensures ResponseEmitter.NewEmitter(Built(), 8192, ResponseEmitter.AsWritten).value.response == Built()
  {
    NoBodyKept(Built(), 8192);
  }

  /** Without a body and without a Content-Length field the emitter leaves a rewound response as it is. */
  lemma NoBodyKept(r: Response, bufferSize: int)
    requires bufferSize >= 1 && !ResponseEmitter.HasBody(r) && r.body.seekable && r.body.pos == 0
    requires forall j :: 0 <= j < |r.headers| ==> r.headers[j].0 != "content-length"
    ensures ResponseEmitter.NewEmitter(r, bufferSize, ResponseEmitter.AsWritten).value.response == r
  {
    assert Lower("Content-Length") == "content-length";
    RemoveAbsent(r.headers, "content-length");
  }

  lemma {:induction false} RemoveAbsent<K, V>(m: seq<(K, V)>, k: K)
    requires forall j :: 0 <= j < |m| ==> m[j].0 != k
    ensures OrderedMap.Remove(m, k) == m
  {
    if |m| > 0 {
      RemoveAbsent(m[1..], k);
      assert m == [m[0]] + m[1..];
    }
  }

  /** The calls for the built response. */
  lemma BuiltCalls()
    ensures ResponseEmitter.NewEmitter(Built(), 8192, ResponseEmitter.AsWritten).Ok?
    ensures EmitHeaders(ResponseEmitter.NewEmitter(Built(), 8192, ResponseEmitter.AsWritten).value.response) == CALLS
  {
    EmitterKeepsBuilt();
    BuiltEmits();
  }

  lemma BuiltEmits()
    ensures EmitHeaders(Built()) == CALLS
  {
    ExampleFields();
    ExampleStatusLine();
    BuiltStatus();
    CallsOf([HeaderCall("X-Foo: bar", true, 0), HeaderCall("X-Bar: foo", true, 0)],
            [HeaderCall("Set-Cookie: cookie=three", false, 0), HeaderCall("Set-Cookie: cookie2=two", false, 0)],
            HeaderCall("HTTP/1.1 204 No Content", true, 204));
  }

  lemma BuiltStatus()
    ensures Status(Built()) == 204
  {
  }

  /** Two field calls, two cookie calls and the status call, in that order. */
  lemma CallsOf(fc: seq<HeaderCall>, cc: seq<HeaderCall>, last: HeaderCall)
    requires |fc| == 2 && |cc| == 2
    ensures fc + cc + [last] == [fc[0], fc[1], cc[0], cc[1], last]
  {
  }

  // ---------------------------------------------------------------------------
  // normalisation

  const JAR: seq<(string, string)> := [("cookie", COOKIE_THREE), ("cookie2", COOKIE_TWO)]
  const NORMALIZED: HeaderUtil.Headers :=
    [("X-Foo", HeaderUtil.Line("bar")), ("X-Bar", HeaderUtil.Line("foo")), ("Set-Cookie", HeaderUtil.Cookies(JAR))]

  /** The calls for the fields and the jar of the example. */
  lemma ExampleFields()
    ensures FieldCalls(Fields(Built())) == [HeaderCall("X-Foo: bar", true, 0), HeaderCall("X-Bar: foo", true, 0)]
    ensures CookieCalls(Jar(Built())) ==
      [HeaderCall("Set-Cookie: cookie=three", false, 0), HeaderCall("Set-Cookie: cookie2=two", false, 0)]
  {
    ExampleNormalizes();
    LineCalls();
    JarCalls();
  }

  lemma LineCalls()
    ensures FieldCalls(NORMALIZED) == [HeaderCall("X-Foo: bar", true, 0), HeaderCall("X-Bar: foo", true, 0)]
  {
    NormalizedFields();
    LineNames();
    FieldCallsOf("X-Foo", "X-Bar", "bar", "foo", JAR);
    LineTexts();
  }

  lemma JarCalls()
    ensures CookieCalls(HeaderUtil.JarOf(OrderedMap.Get(NORMALIZED, HeaderUtil.SET_COOKIE))) ==
      [HeaderCall("Set-Cookie: cookie=three", false, 0), HeaderCall("Set-Cookie: cookie2=two", false, 0)]
  {
    NormalizedFields();
    LineNames();
    JarCallsOf("X-Foo", "X-Bar", "bar", "foo", "cookie", "cookie2", COOKIE_THREE, COOKIE_TWO);
    CookieTexts();
  }

  lemma NormalizedFields()
    ensures NORMALIZED == [("X-Foo", HeaderUtil.Line("bar")), ("X-Bar", HeaderUtil.Line("foo")),
                           (HeaderUtil.SET_COOKIE, HeaderUtil.Cookies([("cookie", COOKIE_THREE), ("cookie2", COOKIE_TWO)]))]
  {
  }

  lemma LineNames()
    ensures "X-Foo" != HeaderUtil.SET_COOKIE && "X-Bar" != HeaderUtil.SET_COOKIE
  {
  }

  lemma LineTexts()
    ensures "X-Foo" + ": " + "bar" == "X-Foo: bar" && "X-Bar" + ": " + "foo" == "X-Bar: foo"
  {
  }

  lemma CookieTexts()
    ensures "Set-Cookie: " + COOKIE_THREE == "Set-Cookie: cookie=three"
    ensures "Set-Cookie: " + COOKIE_TWO == "Set-Cookie: cookie2=two"
  {
  }

  /** Two line fields and the jar give one replacing call per line field. */
  lemma FieldCallsOf(na: string, nb: string, va: string, vb: string, jar: seq<(string, string)>)
    requires na != HeaderUtil.SET_COOKIE && nb != HeaderUtil.SET_COOKIE
    ensures FieldCalls([(na, HeaderUtil.Line(va)), (nb, HeaderUtil.Line(vb)), (HeaderUtil.SET_COOKIE, HeaderUtil.Cookies(jar))])
            == [HeaderCall(na + ": " + va, true, 0), HeaderCall(nb + ": " + vb, true, 0)]
  {
    var hs := [(na, HeaderUtil.Line(va)), (nb, HeaderUtil.Line(vb)), (HeaderUtil.SET_COOKIE, HeaderUtil.Cookies(jar))];
    var ca, cb := HeaderCall(na + ": " + va, true, 0), HeaderCall(nb + ": " + vb, true, 0);
    assert [hs[0]][..0] == [];
    assert FieldCalls([hs[0]]) == [ca];
    assert [hs[0], hs[1]][..1] == [hs[0]];
    assert FieldCalls([hs[0], hs[1]]) == [ca] + [cb];
    assert hs[..2] == [hs[0], hs[1]];
    assert FieldCalls(hs) == [ca] + [cb] + [];
  }

  /** A jar of two cookies gives one adding call per cookie, in jar order. */
  lemma JarCallsOf(na: string, nb: string, va: string, vb: string, n1: string, n2: string, l1: string, l2: string)
    requires na != HeaderUtil.SET_COOKIE && nb != HeaderUtil.SET_COOKIE
    ensures var hs := [(na, HeaderUtil.Line(va)), (nb, HeaderUtil.Line(vb)),
                       (HeaderUtil.SET_COOKIE, HeaderUtil.Cookies([(n1, l1), (n2, l2)]))];
      CookieCalls(HeaderUtil.JarOf(OrderedMap.Get(hs, HeaderUtil.SET_COOKIE)))
      == [HeaderCall("Set-Cookie: " + l1, false, 0), HeaderCall("Set-Cookie: " + l2, false, 0)]
  {
    var hs := [(na, HeaderUtil.Line(va)), (nb, HeaderUtil.Line(vb)),
               (HeaderUtil.SET_COOKIE, HeaderUtil.Cookies([(n1, l1), (n2, l2)]))];
    OrderedMap.IndexOfAt(hs, HeaderUtil.SET_COOKIE, 2);
    assert HeaderUtil.SET_COOKIE + ": " + l1 == "Set-Cookie: " + l1;
    assert HeaderUtil.SET_COOKIE + ": " + l2 == "Set-Cookie: " + l2;
  }

  const COOKIE_LINES: seq<string> := [COOKIE_ONE, COOKIE_TWO, COOKIE_THREE]
  const F0: HeaderUtil.Headers := [("X-Foo", HeaderUtil.Line("bar"))]
  const F1: HeaderUtil.Headers := [("X-Foo", HeaderUtil.Line("bar")), ("X-Bar", HeaderUtil.Line("foo"))]

  lemma ExampleNormalizes()
    ensures Fields(Built()) == NORMALIZED
  {
    ExampleInput();
    FooStep();
    BarStep();
    CookieStep();
    NormalizeThree((StrKey("x-foo"), ListOf(["bar"])), (StrKey("x-bar"), ListOf(["foo"])),
                   (StrKey("set-cookie"), ListOf(COOKIE_LINES)), F0, F1, NORMALIZED);
  }

  lemma FooStep()
    ensures HeaderUtil.Step([], StrKey("x-foo"), ListOf(["bar"])) == Ok(F0)
  {
    FooEntry();
    StepNewLine([], "x-foo", "bar", "X-Foo");
    FooField();
  }

  lemma FooEntry()
    ensures LineEntry("x-foo", "bar", "X-Foo")
  {
    FooName();
    FooValue();
  }

  lemma FooName()
    ensures !IsNumericKey(StrKey("x-foo")) && HeaderUtil.NormalizeHeaderName("x-foo") == "X-Foo"
  {
    NameKey("x-foo");
    NameOf("x", "foo", "x-foo", "X-Foo");
  }

  lemma FooValue()
    ensures Clean("bar") && "X-Foo" != HeaderUtil.SET_COOKIE
  {
  }

  lemma FooField()
    ensures [] + [("X-Foo", HeaderUtil.Line("bar"))] == F0
  {
  }

  lemma BarStep()
    ensures HeaderUtil.Step(F0, StrKey("x-bar"), ListOf(["foo"])) == Ok(F1)
  {
    BarEntry();
    FooKeys();
    StepNewLine(F0, "x-bar", "foo", "X-Bar");
    BarField();
  }

  lemma BarEntry()
    ensures LineEntry("x-bar", "foo", "X-Bar")
  {
    BarName();
    BarValue();
  }

  lemma BarName()
    ensures !IsNumericKey(StrKey("x-bar")) && HeaderUtil.NormalizeHeaderName("x-bar") == "X-Bar"
  {
    NameKey("x-bar");
    NameOf("x", "bar", "x-bar", "X-Bar");
  }

  lemma BarValue()
    ensures Clean("foo") && "X-Bar" != HeaderUtil.SET_COOKIE
  {
  }

  lemma FooKeys()
    ensures forall j :: 0 <= j < |F0| ==> F0[j].0 != "X-Bar"
  {
  }

  lemma BarField()
    ensures F0 + [("X-Bar", HeaderUtil.Line("foo"))] == F1
  {
  }

  lemma CookieStep()
    ensures HeaderUtil.Step(F1, StrKey("set-cookie"), ListOf(COOKIE_LINES)) == Ok(NORMALIZED)
  {
    CookieEntryOf();
    BarKeys();
    StepNewCookies(F1, "set-cookie", COOKIE_LINES, JAR);
    CookieField();
  }

  lemma CookieEntryOf()
    ensures CookieEntry("set-cookie", COOKIE_LINES, JAR)
  {
    CookieKey();
    CookieHeaderName();
    ExampleJar();
    CleanCookies();
  }

  lemma CookieKey()
    ensures !IsNumericKey(StrKey("set-cookie"))
  {
    NameKey("set-cookie");
  }

  lemma CookieHeaderName()
    ensures HeaderUtil.NormalizeHeaderName("set-cookie") == HeaderUtil.SET_COOKIE
  {
    NameOf("set", "cookie", "set-cookie", "Set-Cookie");
  }

  lemma CleanCookies()
    ensures |COOKIE_LINES| > 0 && forall k :: 0 <= k < |COOKIE_LINES| ==> Clean(COOKIE_LINES[k])
  {
    assert Clean(COOKIE_ONE);
    assert Clean(COOKIE_TWO);
    assert Clean(COOKIE_THREE);
  }

  lemma BarKeys()
    ensures forall j :: 0 <= j < |F1| ==> F1[j].0 != HeaderUtil.SET_COOKIE
  {
  }

  lemma CookieField()
    ensures F1 + [(HeaderUtil.SET_COOKIE, HeaderUtil.Cookies(JAR))] == NORMALIZED
  {
  }

  /** `normalize` of three entries runs the three steps in order. */
  lemma NormalizeThree(h0: (Key, Value), h1: (Key, Value), h2: (Key, Value),
                       f0: HeaderUtil.Headers, f1: HeaderUtil.Headers, f2: HeaderUtil.Headers)
    requires HeaderUtil.Step([], h0.0, h0.1) == Ok(f0)
    requires HeaderUtil.Step(f0, h1.0, h1.1) == Ok(f1)
    requires HeaderUtil.Step(f1, h2.0, h2.1) == Ok(f2)
    ensures HeaderUtil.Normalize([h0, h1, h2]) == Ok(f2)
  {
    NormalizeSnoc([], [], h0, f0);
    assert [] + [h0] == [h0];
    NormalizeSnoc([h0], f0, h1, f1);
    assert [h0] + [h1] == [h0, h1];
    NormalizeSnoc([h0, h1], f1, h2, f2);
    assert [h0, h1] + [h2] == [h0, h1, h2];
  }

  /** `normalize` processes the last entry on top of the others. */
  lemma NormalizeSnoc(hs: seq<(Key, Value)>, acc: HeaderUtil.Headers, h: (Key, Value), r: HeaderUtil.Headers)
    requires HeaderUtil.Normalize(hs) == Ok(acc) && HeaderUtil.Step(acc, h.0, h.1) == Ok(r)
    ensures HeaderUtil.Normalize(hs + [h]) == Ok(r)
  {
    assert (hs + [h])[..|hs|] == hs;
  }

  /** A clean single value under a new ordinary name appends a line field. */
  lemma StepNewLine(acc: HeaderUtil.Headers, s: string, v: string, name: string)
    requires LineEntry(s, v, name) && forall j :: 0 <= j < |acc| ==> acc[j].0 != name
    ensures HeaderUtil.Step(acc, StrKey(s), ListOf([v])) == Ok(acc + [(name, HeaderUtil.Line(v))])
  {
    CleanLines([v]);
    assert Join([v], ", ") == v;
    StepLine(acc, s, ListOf([v]), name, [v]);
    AddLineNew(acc, name, v);
  }

  /** An ordinary field `s` with the one clean value `v`, filed under `name`. */
  predicate LineEntry(s: string, v: string, name: string) {
    && !IsNumericKey(StrKey(s)) && HeaderUtil.NormalizeHeaderName(s) == name
    && name != HeaderUtil.SET_COOKIE && Clean(v)
  }

  /** One ordinary field entry is combined into its normalised name. */
  lemma StepLine(acc: HeaderUtil.Headers, s: string, val: Value, name: string, lines: seq<string>)
    requires !IsNumericKey(StrKey(s)) && HeaderUtil.NormalizeHeaderName(s) == name && name != HeaderUtil.SET_COOKIE
    requires HeaderUtil.Lines(val) == Ok(lines)
    ensures HeaderUtil.Step(acc, StrKey(s), val) == Ok(HeaderUtil.AddLine(acc, name, Join(lines, ", ")))
  {
  }

  /** A line under a name not yet present is appended. */
  lemma AddLineNew(acc: HeaderUtil.Headers, name: string, line: string)
    requires forall j :: 0 <= j < |acc| ==> acc[j].0 != name
    ensures HeaderUtil.AddLine(acc, name, line) == acc + [(name, HeaderUtil.Line(line))]
  {
    OrderedMap.IndexOfAt(acc, name, |acc|);
  }

  /** Clean cookie lines under the Set-Cookie name, with no jar yet, append the jar they fill. */
  lemma StepNewCookies(acc: HeaderUtil.Headers, s: string, cs: seq<string>, jar: seq<(string, string)>)
    requires CookieEntry(s, cs, jar) && forall j :: 0 <= j < |acc| ==> acc[j].0 != HeaderUtil.SET_COOKIE
    ensures HeaderUtil.Step(acc, StrKey(s), ListOf(cs)) == Ok(acc + [(HeaderUtil.SET_COOKIE, HeaderUtil.Cookies(jar))])
  {
    CleanLines(cs);
    StepCookies(acc, s, ListOf(cs), cs);
    AddCookiesNew(acc, cs);
  }

  /** A Set-Cookie field `s` with the clean lines `cs`, which fill `jar`. */
  predicate CookieEntry(s: string, cs: seq<string>, jar: seq<(string, string)>) {
    && !IsNumericKey(StrKey(s)) && HeaderUtil.NormalizeHeaderName(s) == HeaderUtil.SET_COOKIE
    && |cs| > 0 && (forall k :: 0 <= k < |cs| ==> Clean(cs[k])) && HeaderUtil.PutCookies([], cs) == jar
  }

  /** A Set-Cookie entry adds its lines to the jar. */
  lemma StepCookies(acc: HeaderUtil.Headers, s: string, val: Value, lines: seq<string>)
    requires !IsNumericKey(StrKey(s)) && HeaderUtil.NormalizeHeaderName(s) == HeaderUtil.SET_COOKIE
    requires HeaderUtil.Lines(val) == Ok(lines)
    ensures HeaderUtil.Step(acc, StrKey(s), val) == Ok(HeaderUtil.AddCookies(acc, lines))
  {
  }

  /** Cookie lines with no jar yet append a jar of their own. */
  lemma AddCookiesNew(acc: HeaderUtil.Headers, lines: seq<string>)
    requires |lines| > 0 && forall j :: 0 <= j < |acc| ==> acc[j].0 != HeaderUtil.SET_COOKIE
    ensures HeaderUtil.AddCookies(acc, lines)
            == acc + [(HeaderUtil.SET_COOKIE, HeaderUtil.Cookies(HeaderUtil.PutCookies([], lines)))]
  {
    OrderedMap.IndexOfAt(acc, HeaderUtil.SET_COOKIE, |acc|);
  }

  /** `getHeaders()` of the example, as the array `normalize` reads. */
  lemma ExampleInput()
    ensures HeaderInput(Built()) == [
      (StrKey("x-foo"), ListOf(["bar"])),
      (StrKey("x-bar"), ListOf(["foo"])),
      (StrKey("set-cookie"), ListOf(COOKIE_LINES))]
  {
    NameKey("x-foo");
    NameKey("x-bar");
    NameKey("set-cookie");
    InputThree(Built(), "x-foo", "x-bar", "set-cookie", "bar", "foo", COOKIE_LINES);
  }

  lemma InputThree(m: Message, a: string, b: string, c: string, va: string, vb: string, cs: seq<string>)
    requires |m.headers| == 3
    requires m.headers[0].1 == HeaderField(a, [va]) && m.headers[1].1 == HeaderField(b, [vb])
    requires m.headers[2].1 == HeaderField(c, cs)
    requires ArrayKey(a) == StrKey(a) && ArrayKey(b) == StrKey(b) && ArrayKey(c) == StrKey(c)
    ensures HeaderInput(m) == [(StrKey(a), ListOf([va])), (StrKey(b), ListOf([vb])), (StrKey(c), ListOf(cs))]
  {
  }

  /** A name that starts with a letter is a string key, and not a numeric one. */
  lemma NameKey(s: string)
    requires |s| > 0 && 'a' <= s[0] <= 'z'
    ensures ArrayKey(s) == StrKey(s) && !IsNumericKey(StrKey(s))
  {
    LetterNotNumeric(s);
  }

  /** Each cookie is filed under its name; "cookie=three" replaces "cookie=one" in place. */
  lemma ExampleJar()
    ensures HeaderUtil.PutCookies([], COOKIE_LINES) == JAR
  {
    CookieOne();
    JarOne(COOKIE_ONE, "cookie");
    CookieTwo();
    JarTwo(COOKIE_ONE, COOKIE_TWO, "cookie", "cookie2");
    CookieThree();
    JarThree(COOKIE_ONE, COOKIE_TWO, COOKIE_THREE, "cookie", "cookie2");
  }

  lemma CookieOne()
    ensures HeaderUtil.CookieName(COOKIE_ONE) == "cookie"
  {
    CookieNameOf("cookie", "one", COOKIE_ONE);
  }

  lemma CookieTwo()
    ensures HeaderUtil.CookieName(COOKIE_TWO) == "cookie2"
  {
    CookieNameOf("cookie2", "two", COOKIE_TWO);
  }

  lemma CookieThree()
    ensures HeaderUtil.CookieName(COOKIE_THREE) == "cookie"
  {
    CookieNameOf("cookie", "three", COOKIE_THREE);
  }

  /** Three cookies of which the third has the name of the first. */
  lemma JarOne(l1: string, n1: string)
    requires HeaderUtil.CookieName(l1) == n1
    ensures HeaderUtil.PutCookies([], [l1]) == [(n1, l1)]
  {
    OrderedMap.IndexOfAt<string, string>([], n1, 0);
    JarAppend([], [], l1, n1);
    assert [] + [l1] == [l1];
  }

  lemma JarTwo(l1: string, l2: string, n1: string, n2: string)
    requires HeaderUtil.PutCookies([], [l1]) == [(n1, l1)]
    requires HeaderUtil.CookieName(l2) == n2 && n1 != n2
    ensures HeaderUtil.PutCookies([], [l1, l2]) == [(n1, l1), (n2, l2)]
  {
    var lines, jar := [l1], [(n1, l1)];
    assert OrderedMap.IndexOf(jar, n2) == |jar| by {
      OrderedMap.IndexOfAt(jar, n2, 1);
    }
    assert lines + [l2] == [l1, l2];
    assert jar + [(n2, l2)] == [(n1, l1), (n2, l2)];
    JarAppend(lines, jar, l2, n2);
  }

  /** A third cookie with the name of the first replaces it in place. */
  lemma JarThree(l1: string, l2: string, l3: string, n1: string, n2: string)
    requires HeaderUtil.PutCookies([], [l1, l2]) == [(n1, l1), (n2, l2)]
    requires HeaderUtil.CookieName(l3) == n1
    ensures HeaderUtil.PutCookies([], [l1, l2, l3]) == [(n1, l3), (n2, l2)]
  {
    var lines, jar := [l1, l2], [(n1, l1), (n2, l2)];
    assert OrderedMap.IndexOf(jar, n1) == 0 by {
      OrderedMap.IndexOfAt(jar, n1, 0);
    }
    assert lines + [l3] == [l1, l2, l3];
    assert jar[0 := (n1, l3)] == [(n1, l3), (n2, l2)];
    JarReplace(lines, jar, l3, n1, 0);
  }

  /** A cookie whose name the jar does not hold yet goes at its end. */
  lemma JarAppend(lines: seq<string>, jar: seq<(string, string)>, line: string, name: string)
    requires HeaderUtil.PutCookies([], lines) == jar
    requires HeaderUtil.CookieName(line) == name && OrderedMap.IndexOf(jar, name) == |jar|
    ensures HeaderUtil.PutCookies([], lines + [line]) == jar + [(name, line)]
  {
    assert (lines + [line])[..|lines|] == lines;
  }

  /** A cookie whose name the jar holds at `i` takes that place. */
  lemma JarReplace(lines: seq<string>, jar: seq<(string, string)>, line: string, name: string, i: nat)
    requires HeaderUtil.PutCookies([], lines) == jar
    requires HeaderUtil.CookieName(line) == name && OrderedMap.IndexOf(jar, name) == i < |jar|
    ensures HeaderUtil.PutCookies([], lines + [line]) == jar[i := (name, line)]
  {
    assert (lines + [line])[..|lines|] == lines;
  }

  /** The normalised form of a concrete two-part name. */
  lemma NameOf(a: string, b: string, s: string, n: string)
    requires LowerWord(a) && LowerWord(b) && s == a + "-" + b && n == UcFirst(a) + "-" + UcFirst(b)
    ensures HeaderUtil.NormalizeHeaderName(s) == n
  {
    TwoPartName(a, b);
  }

  /** The cookie name of "name=value" is the name, when it is lowercase and has no blanks. */
  lemma CookieNameOf(name: string, value: string, line: string)
    requires |name| > 0 && forall i :: 0 <= i < |name| ==> 'a' <= name[i] <= 'z' || '0' <= name[i] <= '9'
    requires line == name + "=" + value
    ensures HeaderUtil.CookieName(line) == name
  {
    FirstIndexOfJoin(name, value, '=');
    assert (name + "=" + value)[..|name|] == name;
    LowerKeeps(name);
    TrimNoop(name, TRIM_CHARS);
  }

  /** A two-part lowercase name gets an upper-case letter at the head of each part. */
  lemma TwoPartName(a: string, b: string)
    requires LowerWord(a) && LowerWord(b)
    ensures HeaderUtil.NormalizeHeaderName(a + "-" + b) == UcFirst(a) + "-" + UcFirst(b)
  {
    SplitTwo(a, b);
    WordPart(a);
    WordPart(b);
    PartsTwo(a, b);
    JoinTwo(UcFirst(a), UcFirst(b));
  }

  lemma SplitTwo(a: string, b: string)
    requires LowerWord(a) && LowerWord(b)
    ensures Split(Remove(a + "-" + b, HeaderUtil.NAME_STRIPPED), '-') == [a, b]
  {
    RemoveTwo(a, b);
    assert '-' !in a && '-' !in b;
    SplitCons(a, b, '-');
    SplitNoDelim(b, '-');
  }

  lemma RemoveTwo(a: string, b: string)
    requires LowerWord(a) && LowerWord(b)
    ensures Remove(a + "-" + b, HeaderUtil.NAME_STRIPPED) == a + "-" + b
  {
    NoStripped(a, b);
    RemoveNoop(a + "-" + b, HeaderUtil.NAME_STRIPPED);
  }

  lemma PartsTwo(x: string, y: string)
    ensures HeaderUtil.NormalizeParts([x, y]) == [HeaderUtil.NormalizePart(x), HeaderUtil.NormalizePart(y)]
  {
    var r := HeaderUtil.NormalizeParts([x, y]);
    assert r[0] == HeaderUtil.NormalizePart(x) && r[1] == HeaderUtil.NormalizePart(y);
  }

  lemma JoinTwo(x: string, y: string)
    ensures Join([x, y], "-") == x + "-" + y
  {
    assert [x, y][1..] == [y];
  }

  predicate LowerWord(a: string) {
    |a| > 0 && forall i :: 0 <= i < |a| ==> 'a' <= a[i] <= 'z'
  }

  lemma NoStripped(a: string, b: string)
    requires LowerWord(a) && LowerWord(b)
    ensures forall i :: 0 <= i < |a + "-" + b| ==> (a + "-" + b)[i] !in HeaderUtil.NAME_STRIPPED
    ensures '-' !in a && '-' !in b
  {
  }

  /** A lowercase word normalises to itself with its first letter raised. */
  lemma WordPart(a: string)
    requires LowerWord(a)
    ensures HeaderUtil.NormalizePart(a) == UcFirst(a)
  {
    LowerKeeps(a);
    TrimNoop(a, TRIM_CHARS);
  }

  /** Values without blanks at the ends or line breaks come out of `trimValues` as they went in. */
  lemma CleanLines(vs: seq<string>)
    requires forall k :: 0 <= k < |vs| ==> Clean(vs[k])
    ensures HeaderUtil.Lines(ListOf(vs)) == Ok(vs)
  {
    var values := HeaderUtil.Values(ListOf(vs).entries);
    forall k | 0 <= k < |vs|
      ensures HeaderUtil.TrimValue(values[k]) == Ok(vs[k])
    {
      CleanLine(vs[k]);
    }
    var r := HeaderUtil.TrimValues(values);
    assert forall k :: 0 <= k < |vs| ==> r.value[k] == vs[k];
    assert r.value == vs;
  }

  lemma CleanLine(s: string)
    requires Clean(s)
    ensures HeaderUtil.TrimValue(VStr(s)) == Ok(s)
  {
    RemoveNoop(s, HeaderUtil.LINE_BREAKS);
    TrimNoop(s, TRIM_CHARS);
  }

  predicate Clean(s: string) {
    && (forall i :: 0 <= i < |s| ==> s[i] !in HeaderUtil.LINE_BREAKS)
    && (|s| > 0 ==> s[0] !in TRIM_CHARS && s[|s| - 1] !in TRIM_CHARS)
  }

  // ---------------------------------------------------------------------------
  // the status line

  lemma ExampleStatusLine()
    ensures ResponseEmitter.StatusLineText(Built()) == "HTTP/1.1 204 No Content"
  {
    BuiltStart();
    StatusLineOf(Built(), "1.1", "204", "No Content");
    StatusText();
  }

  lemma BuiltStart()
    ensures Built().version == "1.1" && IntToString(Status(Built())) == "204"
    ensures Built().start.reason == "No Content" && "No Content"[9] !in TRIM_CHARS
  {
    BuiltStatus();
    Code204();
  }

  lemma StatusText()
    ensures "HTTP/" + "1.1" + " " + "204" + " " + "No Content" == "HTTP/1.1 204 No Content"
  {
  }

  lemma StatusLineOf(r: Response, v: string, code: string, reason: string)
    requires r.version == v && IntToString(Status(r)) == code && r.start.reason == reason
    requires reason != "" && reason[|reason| - 1] !in TRIM_CHARS
    ensures ResponseEmitter.StatusLineText(r) == "HTTP/" + v + " " + code + " " + reason
  {
    ResponseEmitter.StatusLineForm(r);
    assert ResponseEmitter.StatusLineText(r) == "HTTP/" + r.version + " " + IntToString(Status(r)) + " " + r.start.reason;
  }

  lemma Code204()
    ensures NatToString(204) == "204"
  {
    NatToStringStep(204);
    NatToStringStep(20);
    assert NatToString(2) == "2";
  }

  lemma NatToStringStep(n: nat)
    requires n >= 10
    ensures NatToString(n) == NatToString(n / 10) + [DigitChar(n % 10)]
  {
  }
}
