/**
 * The SAPI emitter (src/Emitter/SapiEmitter.php): refuses to start when
 * output or headers have already gone out, then sends the normalised header
 * fields, then the cookies one `header()` call each, then the status line,
 * and finally the body through the response emitter.
 *
 * PHP's `header()` is recorded instead of performed: the emitter yields the
 * list of calls it makes, each with its line, its replace flag and its
 * response code.
 */
module SapiEmitter {
  import opened Wrappers
  import opened Str
  import opened PhpValues
  import opened HttpMessage
  import HeaderUtil
  import OrderedMap
  import StreamUtil
  import ResponseEmitter

  /** One `header($header, $replace, $response_code)` call. */
  datatype HeaderCall = HeaderCall(header: string, replace: bool, code: int)

  /** What the SAPI reports before emitting: output buffering and where headers were sent, if they were. */
  datatype Sapi = Sapi(obLevel: int, obLength: int, headersSent: Option<(string, int)>)

  const PREVIOUS_OUTPUT: string := "Output has been emitted previously; cannot emit response."

  function HeadersSentMessage(file: string, line: int): string {
    "Headers already sent in file " + file + " on line " + IntToString(line) + "."
  }

  // ---------------------------------------------------------------------------
  // the header array handed to normalize

  /** A list of strings as a PHP array with keys 0, 1, 2, ... */
  function ListOf(vs: seq<string>): Value {
    VArr(seq(|vs|, i requires 0 <= i < |vs| => (IntKey(i), VStr(vs[i]))))
  }

  /** `getHeaders()` as a PHP array: each field's name as an array key, its values as a list. */
  function HeaderInput(m: Message): (hs: seq<(Key, Value)>)
    ensures |hs| == |m.headers|
  {
    var g := GetHeaders(m);
    seq(|g|, i requires 0 <= i < |g| => (ArrayKey(g[i].0), ListOf(g[i].1)))
  }

  /** The values of a list are all strings, so trimming them never fails. */
  lemma ListLines(vs: seq<string>)
    ensures HeaderUtil.Lines(ListOf(vs)).Ok?
  {
    var v := ListOf(vs);
    assert forall i :: 0 <= i < |v.entries| ==> HeaderUtil.Values(v.entries)[i] == VStr(vs[i]);
  }

  /** A list is never read as a "name: value" pair: its first key is an integer. */
  lemma ListNotPair(vs: seq<string>)
    ensures HeaderUtil.NormalizeKV(ListOf(vs)).None?
  {
  }

  /** Normalising the headers of a message cannot fail: every value is a string. */
  lemma HeaderInputNormalizes(m: Message)
    ensures HeaderUtil.Normalize(HeaderInput(m)).Ok?
  {
    var hs := HeaderInput(m);
    HeaderUtil.NormalizeFails(hs);
    forall i | 0 <= i < |hs|
      ensures !HeaderUtil.BadEntry(hs[i])
    {
      var vs := GetHeaders(m)[i].1;
      ListLines(vs);
      ListNotPair(vs);
    }
  }

  /** The normalised header fields of a message. */
  function Fields(m: Message): HeaderUtil.Headers {
    HeaderInputNormalizes(m);
    HeaderUtil.Normalize(HeaderInput(m)).value
  }

  /** The Set-Cookie jar of a message. */
  function Jar(m: Message): seq<(string, string)> {
    HeaderUtil.JarOf(OrderedMap.Get(Fields(m), HeaderUtil.SET_COOKIE))
  }

  // ---------------------------------------------------------------------------
  // emitHeaders

  /** A field as `%s` formats it: the line, or "Array" for an array. */
  function FieldText(f: HeaderUtil.Field): string {
    match f
    case Line(v) => v
    case Cookies(_) => "Array"
  }

  /** One replacing call per field other than Set-Cookie, in field order. */
  function FieldCalls(hs: HeaderUtil.Headers): (r: seq<HeaderCall>)
    ensures |r| <= |hs|
  {
    if |hs| == 0 then []
    else
      var (name, f) := hs[|hs| - 1];
      FieldCalls(hs[..|hs| - 1]) +
      (if name == HeaderUtil.SET_COOKIE then [] else [HeaderCall(name + ": " + FieldText(f), true, 0)])
  }

  /** One adding call per cookie line, in jar order. */
  function CookieCalls(jar: seq<(string, string)>): (r: seq<HeaderCall>)
    ensures |r| == |jar|
  {
    seq(|jar|, i requires 0 <= i < |jar| => HeaderCall(HeaderUtil.SET_COOKIE + ": " + jar[i].1, false, 0))
  }

  /** `emitHeaders`: the fields, then the cookies, then the status line with the status code. */
  function EmitHeaders(resp: Response): seq<HeaderCall> {
    FieldCalls(Fields(resp)) + CookieCalls(Jar(resp))
    + [HeaderCall(ResponseEmitter.StatusLineText(resp), true, Status(resp))]
  }

  /**
   * Every call of a field names a field other than Set-Cookie and carries
   * its text; and every such field has its call.
   */
  lemma {:induction false} FieldCallsSpec(hs: HeaderUtil.Headers, c: HeaderCall)
    ensures c in FieldCalls(hs) <==>
      exists i :: 0 <= i < |hs| && hs[i].0 != HeaderUtil.SET_COOKIE
                  && c == HeaderCall(hs[i].0 + ": " + FieldText(hs[i].1), true, 0)
  {
    if |hs| > 0 {
      var n := |hs| - 1;
      var p := hs[..n];
      FieldCallsSpec(p, c);
      assert forall i :: 0 <= i < n ==> hs[i] == p[i];
    }
  }

  /** Field calls replace and carry no response code. */
  lemma {:induction false} FieldCallsReplace(hs: HeaderUtil.Headers)
    ensures forall k :: 0 <= k < |FieldCalls(hs)| ==> FieldCalls(hs)[k].replace && FieldCalls(hs)[k].code == 0
  {
    if |hs| > 0 {
      FieldCallsReplace(hs[..|hs| - 1]);
    }
  }

  /**
   * The shape of the calls: the status line comes last, with the status
   * code; before it, the replacing field calls come first and the adding
   * Set-Cookie calls after them, one per jar entry, none with a code.
   */
  lemma EmitHeadersShape(resp: Response)
    ensures var r := EmitHeaders(resp);
      && |r| == |FieldCalls(Fields(resp))| + |Jar(resp)| + 1
      && r[|r| - 1] == HeaderCall(ResponseEmitter.StatusLineText(resp), true, Status(resp))
      && (forall k :: 0 <= k < |r| - 1 ==> r[k].code == 0)
      && (forall k :: 0 <= k < |r| - 1 ==> (r[k].replace <==> k < |FieldCalls(Fields(resp))|))
      && (forall k :: 0 <= k < |r| - 1 && !r[k].replace ==>
            |r[k].header| >= 12 && r[k].header[..12] == "Set-Cookie: ")
  {
    CallsShape(Fields(resp), Jar(resp), HeaderCall(ResponseEmitter.StatusLineText(resp), true, Status(resp)));
  }

  lemma CallsShape(hs: HeaderUtil.Headers, jar: seq<(string, string)>, status: HeaderCall)
    ensures var f := FieldCalls(hs);
      var r := f + CookieCalls(jar) + [status];
      && |r| == |f| + |jar| + 1
      && r[|r| - 1] == status
      && (forall k :: 0 <= k < |r| - 1 ==> r[k].code == 0)
      && (forall k :: 0 <= k < |r| - 1 ==> (r[k].replace <==> k < |f|))
      && (forall k :: 0 <= k < |r| - 1 && !r[k].replace ==>
            |r[k].header| >= 12 && r[k].header[..12] == "Set-Cookie: ")
  {
    var f := FieldCalls(hs);
    var c := CookieCalls(jar);
    var r := f + c + [status];
    FieldCallsReplace(hs);
    assert forall k :: 0 <= k < |f| ==> r[k] == f[k];
    assert forall k :: |f| <= k < |r| - 1 ==> r[k] == c[k - |f|];
  }

  /** The field each field call is for, in call order. */
  function FieldCallNames(hs: HeaderUtil.Headers): (r: seq<string>)
    ensures |r| == |FieldCalls(hs)|
  {
    if |hs| == 0 then []
    else
      var name := hs[|hs| - 1].0;
      FieldCallNames(hs[..|hs| - 1]) + (if name == HeaderUtil.SET_COOKIE then [] else [name])
  }

  /** Each field call is for a field other than Set-Cookie and starts with that field's name and ": ". */
  lemma {:induction false} FieldCallNamesSpec(hs: HeaderUtil.Headers)
    ensures forall k :: 0 <= k < |FieldCalls(hs)| ==>
      var n, h := FieldCallNames(hs)[k], FieldCalls(hs)[k].header;
      && n != HeaderUtil.SET_COOKIE && n in OrderedMap.Keys(hs)
      && |h| >= |n| + 2 && h[..|n| + 2] == n + ": "
  {
    if |hs| > 0 {
      var p := hs[..|hs| - 1];
      FieldCallNamesSpec(p);
      assert forall i :: 0 <= i < |p| ==> p[i] == hs[i];
      var (name, f) := hs[|hs| - 1];
      assert OrderedMap.Keys(hs)[|hs| - 1] == name;
      assert forall n :: n in OrderedMap.Keys(p) ==> n in OrderedMap.Keys(hs) by {
        assert forall i :: 0 <= i < |p| ==> OrderedMap.Keys(p)[i] == OrderedMap.Keys(hs)[i];
      }
      if name != HeaderUtil.SET_COOKIE {
        var h := name + ": " + FieldText(f);
        assert h[..|name| + 2] == name + ": ";
      }
    }
  }

  /** In a map with unique names, the field `name` has exactly one call, at position `k`. */
  lemma {:induction false} FieldCallOnce(hs: HeaderUtil.Headers, name: string, v: string) returns (k: nat)
    requires OrderedMap.UniqueKeys(hs) && name != HeaderUtil.SET_COOKIE
    requires OrderedMap.Get(hs, name) == Some(HeaderUtil.Line(v))
    ensures k < |FieldCalls(hs)| && FieldCallNames(hs)[k] == name
    ensures FieldCalls(hs)[k] == HeaderCall(name + ": " + v, true, 0)
    ensures forall k' :: 0 <= k' < |FieldCalls(hs)| && FieldCallNames(hs)[k'] == name ==> k' == k
  {
    var n := |hs| - 1;
    var p := hs[..n];
    assert forall j :: 0 <= j < n ==> p[j] == hs[j];
    if hs[n].0 == name {
      assert forall j :: 0 <= j < n ==> hs[j].0 != name;
      OrderedMap.IndexOfAt(hs, name, n);
      FieldCallNamesSpec(p);
      assert forall j :: 0 <= j < n ==> OrderedMap.Keys(p)[j] != name;
      k := LastFieldCall(hs, v);
    } else {
      var i := OrderedMap.IndexOf(hs, name);
      assert i < n && p[i] == hs[i];
      OrderedMap.IndexOfAt(p, name, i);
      var k0 := FieldCallOnce(p, name, v);
      k := EarlierFieldCall(hs, p, name, k0);
    }
  }

  /** The last field's call comes after those of the fields before it. */
  lemma LastFieldCall(hs: HeaderUtil.Headers, v: string) returns (k: nat)
    requires |hs| > 0 && hs[|hs| - 1] == (hs[|hs| - 1].0, HeaderUtil.Line(v))
    requires hs[|hs| - 1].0 != HeaderUtil.SET_COOKIE
    requires hs[|hs| - 1].0 !in FieldCallNames(hs[..|hs| - 1])
    ensures k < |FieldCalls(hs)| && FieldCallNames(hs)[k] == hs[|hs| - 1].0
    ensures FieldCalls(hs)[k] == HeaderCall(hs[|hs| - 1].0 + ": " + v, true, 0)
    ensures forall k' :: 0 <= k' < |FieldCalls(hs)| && FieldCallNames(hs)[k'] == hs[|hs| - 1].0 ==> k' == k
  {
    k := |FieldCalls(hs[..|hs| - 1])|;
  }

  /** A call of an earlier field keeps its position when a field of another name follows. */
  lemma EarlierFieldCall(hs: HeaderUtil.Headers, p: HeaderUtil.Headers, name: string, k0: nat) returns (k: nat)
    requires |hs| > 0 && p == hs[..|hs| - 1] && hs[|hs| - 1].0 != name
    requires k0 < |FieldCalls(p)| && FieldCallNames(p)[k0] == name
    requires forall k' :: 0 <= k' < |FieldCalls(p)| && FieldCallNames(p)[k'] == name ==> k' == k0
    ensures k == k0 && k < |FieldCalls(hs)| && FieldCallNames(hs)[k] == name
    ensures FieldCalls(hs)[k] == FieldCalls(p)[k0]
    ensures forall k' :: 0 <= k' < |FieldCalls(hs)| && FieldCallNames(hs)[k'] == name ==> k' == k
  {
    k := k0;
  }

  /**
   * Every field other than Set-Cookie that the input addresses is sent
   * once, replacing, with its lines combined as `normalize` combines them:
   * its call is at position `k`, and no other field call is for that name.
   */
  lemma EmittedField(resp: Response, name: string) returns (k: nat)
    requires name != HeaderUtil.SET_COOKIE
    requires HeaderUtil.Combine(HeaderUtil.FieldLines(HeaderInput(resp), name)).Some?
    ensures HeaderCall(name + ": " + HeaderUtil.Combine(HeaderUtil.FieldLines(HeaderInput(resp), name)).value, true, 0)
              in EmitHeaders(resp)
    ensures k < |FieldCallNames(Fields(resp))| && FieldCallNames(Fields(resp))[k] == name
    ensures EmitHeaders(resp)[k] ==
              HeaderCall(name + ": " + HeaderUtil.Combine(HeaderUtil.FieldLines(HeaderInput(resp), name)).value, true, 0)
    ensures forall k' :: 0 <= k' < |FieldCallNames(Fields(resp))| && FieldCallNames(Fields(resp))[k'] == name ==> k' == k
  {
    var v := HeaderUtil.Combine(HeaderUtil.FieldLines(HeaderInput(resp), name)).value;
    HeaderInputNormalizes(resp);
    HeaderUtil.NormalizeCombines(HeaderInput(resp), name);
    HeaderUtil.NormalizeUnique(HeaderInput(resp));
    k := FieldCallOnce(Fields(resp), name, v);
    var status := HeaderCall(ResponseEmitter.StatusLineText(resp), true, Status(resp));
    assert EmitHeaders(resp) == FieldCalls(Fields(resp)) + CookieCalls(Jar(resp)) + [status];
    assert EmitHeaders(resp)[k] == FieldCalls(Fields(resp))[k];
  }

  /** For each cookie name, the last cookie line with that name is sent, adding. */
  lemma EmittedCookie(resp: Response, cookie: string)
    requires HeaderUtil.LastCookie(HeaderUtil.CookieLines(HeaderInput(resp)), cookie).Some?
    ensures HeaderCall("Set-Cookie: " + HeaderUtil.LastCookie(HeaderUtil.CookieLines(HeaderInput(resp)), cookie).value, false, 0)
              in EmitHeaders(resp)
  {
    HeaderInputNormalizes(resp);
    HeaderUtil.NormalizeCookies(HeaderInput(resp), cookie);
    CookieCallIn(FieldCalls(Fields(resp)), Jar(resp), HeaderCall(ResponseEmitter.StatusLineText(resp), true, Status(resp)),
                 cookie, HeaderUtil.LastCookie(HeaderUtil.CookieLines(HeaderInput(resp)), cookie).value);
  }

  lemma CookieCallIn(f: seq<HeaderCall>, jar: seq<(string, string)>, status: HeaderCall, cookie: string, line: string)
    requires OrderedMap.Get(jar, cookie) == Some(line)
    ensures HeaderCall("Set-Cookie: " + line, false, 0) in f + CookieCalls(jar) + [status]
  {
    var i := OrderedMap.IndexOf(jar, cookie);
    assert HeaderUtil.SET_COOKIE + ": " + line == "Set-Cookie: " + line;
    assert (f + CookieCalls(jar) + [status])[|f| + i] == CookieCalls(jar)[i];
  }

  /** Each jar entry is filed under the cookie name of its line, so no two Set-Cookie calls share a cookie name. */
  lemma CookiesOncePerName(resp: Response)
    ensures forall i :: 0 <= i < |Jar(resp)| ==> Jar(resp)[i].0 == HeaderUtil.CookieName(Jar(resp)[i].1)
    ensures forall i, j :: 0 <= i < j < |Jar(resp)| ==>
      HeaderUtil.CookieName(Jar(resp)[i].1) != HeaderUtil.CookieName(Jar(resp)[j].1)
  {
    var jar := Jar(resp);
    var lines := HeaderUtil.CookieLines(HeaderInput(resp));
    HeaderInputNormalizes(resp);
    HeaderUtil.NormalizeUnique(HeaderInput(resp));
    forall i | 0 <= i < |jar|
      ensures jar[i].0 == HeaderUtil.CookieName(jar[i].1)
    {
      OrderedMap.GetIn(jar, jar[i].0, jar[i].1);
      HeaderUtil.NormalizeCookies(HeaderInput(resp), jar[i].0);
      LastCookieName(lines, jar[i].0);
    }
  }

  /** The last line with a cookie name carries that name. */
  lemma {:induction false} LastCookieName(lines: seq<string>, c: string)
    ensures HeaderUtil.LastCookie(lines, c).Some? ==> HeaderUtil.CookieName(HeaderUtil.LastCookie(lines, c).value) == c
  {
    if |lines| > 0 {
      LastCookieName(lines[..|lines| - 1], c);
    }
  }

  // ---------------------------------------------------------------------------
  // emit

  /** Output buffering holds something already. */
  predicate OutputStarted(sapi: Sapi) {
    sapi.obLevel > 0 && sapi.obLength > 0
  }

  /** What reaches the client, in order: header calls and body chunks. */
  datatype Event = Header(call: HeaderCall) | Body(chunk: string)

  function HeaderEvents(calls: seq<HeaderCall>): (r: seq<Event>)
    ensures |r| == |calls| && forall k :: 0 <= k < |r| ==> r[k] == Header(calls[k])
  {
    seq(|calls|, k requires 0 <= k < |calls| => Header(calls[k]))
  }

  function BodyEvents(out: seq<string>): (r: seq<Event>)
    ensures |r| == |out| && forall k :: 0 <= k < |r| ==> r[k] == Body(out[k])
  {
    seq(|out|, k requires 0 <= k < |out| => Body(out[k]))
  }

  /** The body chunks of a log, in order; a header contributes nothing. */
  function Chunks(log: seq<Event>): (r: seq<string>)
    ensures |r| == |log|
    ensures forall k :: 0 <= k < |log| && log[k].Body? ==> r[k] == log[k].chunk
  {
    seq(|log|, k requires 0 <= k < |log| => if log[k].Body? then log[k].chunk else "")
  }

  /**
   * `emit`: an error, with nothing sent, when output was emitted before or
   * headers were already sent; otherwise the header calls, then the body.
   * No header follows a body chunk.
   */
  method Emit(e: ResponseEmitter.Emitter, sapi: Sapi, alive: nat -> bool) returns (r: Result<()>, log: seq<Event>)
    requires ResponseEmitter.Valid(e)
    ensures forall i, j :: 0 <= i < j < |log| && log[i].Body? ==> log[j].Body?
    ensures OutputStarted(sapi) ==> r == Err(Runtime(PREVIOUS_OUTPUT)) && log == []
    ensures !OutputStarted(sapi) && sapi.headersSent.Some? ==>
      r == Err(Runtime(HeadersSentMessage(sapi.headersSent.value.0, sapi.headersSent.value.1))) && log == []
    ensures !OutputStarted(sapi) && sapi.headersSent.None? ==>
      var h := EmitHeaders(e.response);
      && |h| <= |log| && log[..|h|] == HeaderEvents(h)
      && (forall k :: |h| <= k < |log| ==> log[k].Body?)
      && (r.Err? <==> ResponseEmitter.NeedsSeek(e) && !e.response.body.seekable)
      && StreamUtil.Flatten(Chunks(log[|h|..])) <= ResponseEmitter.BodyWindow(e)
      && ((forall k :: alive(k)) && r.Ok? ==> StreamUtil.Flatten(Chunks(log[|h|..])) == ResponseEmitter.BodyWindow(e))
  {
    if OutputStarted(sapi) {
      return Err(Runtime(PREVIOUS_OUTPUT)), [];
    }
    if sapi.headersSent.Some? {
      var (file, line) := sapi.headersSent.value;
      return Err(Runtime(HeadersSentMessage(file, line))), [];
    }
    var h := EmitHeaders(e.response);
    var out;
    r, out := ResponseEmitter.EmitBody(e, alive);
    log := HeaderEvents(h) + BodyEvents(out);
    assert log[..|h|] == HeaderEvents(h);
    assert Chunks(log[|h|..]) == out;
  }
}
