/**
 * The slice of a PSR-7 message the utilities read and write: a start line,
 * a protocol version, case-insensitive header fields and a body stream.
 *
 * Header fields are kept under their lowercased name in insertion order;
 * each remembers the spelling it was last set with. `withHeader` replaces a
 * field in place, `withAddedHeader` appends a value and `withoutHeader`
 * removes the field.
 */
module HttpMessage {
  import opened Wrappers
  import opened Str
  import OrderedMap
  import UriUtil
  import StreamUtil

  /** A header field: the name as given and its values. */
  datatype HeaderField = HeaderField(name: string, values: seq<string>)

  /** Header fields by lowercased name. */
  type HeaderMap = seq<(string, HeaderField)>

  datatype StartLine =
    | RequestLine(verb: string, target: string, uri: UriUtil.Uri)
    | StatusLine(status: int, reason: string)
    | NoStartLine

  datatype Message = Message(start: StartLine, version: string, headers: HeaderMap, body: StreamUtil.Stream)

  /** A `ResponseInterface` instance. */
  type Response = m: Message | m.start.StatusLine?
    witness Message(StatusLine(200, "OK"), "1.1", [], StreamUtil.Stream("", 0, Some(0), true, true, true))

  predicate HasHeader(m: Message, name: string) {
    OrderedMap.HasKey(m.headers, Lower(name))
  }

  function GetHeader(m: Message, name: string): seq<string> {
    match OrderedMap.Get(m.headers, Lower(name))
    case Some(f) => f.values
    case None => []
  }

  /** `getHeaderLine`: the values joined with ", ", or "" when the field is absent. */
  function GetHeaderLine(m: Message, name: string): string {
    Join(GetHeader(m, name), ", ")
  }

  /** `getHeaders`: each field's name and values, in field order. */
  function GetHeaders(m: Message): (r: seq<(string, seq<string>)>)
    ensures |r| == |m.headers|
    ensures forall i :: 0 <= i < |r| ==> r[i] == (m.headers[i].1.name, m.headers[i].1.values)
  {
    seq(|m.headers|, i requires 0 <= i < |m.headers| => (m.headers[i].1.name, m.headers[i].1.values))
  }

  function WithHeader(m: Message, name: string, value: string): (r: Message)
    ensures r.start == m.start && r.version == m.version && r.body == m.body
  {
    m.(headers := OrderedMap.Put(m.headers, Lower(name), HeaderField(name, [value])))
  }

  function WithAddedHeader(m: Message, name: string, value: string): (r: Message)
    ensures r.start == m.start && r.version == m.version && r.body == m.body
  {
    m.(headers := OrderedMap.Put(m.headers, Lower(name), HeaderField(name, GetHeader(m, name) + [value])))
  }

  function WithoutHeader(m: Message, name: string): (r: Message)
    ensures r.start == m.start && r.version == m.version && r.body == m.body
  {
    m.(headers := OrderedMap.Remove(m.headers, Lower(name)))
  }

  function WithStatus(m: Response, code: int, reason: string): (r: Response)
    ensures r.headers == m.headers && r.version == m.version && r.body == m.body
  {
    m.(start := StatusLine(code, reason))
  }

  function Status(m: Response): int {
    m.start.status
  }

  // ---------------------------------------------------------------------------
  // reading after writing

  /** Header names are compared without regard to case. */
  lemma HeaderCaseInsensitive(m: Message, a: string, b: string)
    requires Lower(a) == Lower(b)
    ensures HasHeader(m, a) == HasHeader(m, b)
    ensures GetHeader(m, a) == GetHeader(m, b)
  {
  }

  /** A field just set reads back as the single value set, under any spelling of its name. */
  lemma WithHeaderGet(m: Message, name: string, value: string, other: string)
    requires Lower(other) == Lower(name)
    ensures HasHeader(WithHeader(m, name, value), other)
    ensures GetHeader(WithHeader(m, name, value), other) == [value]
    ensures GetHeaderLine(WithHeader(m, name, value), other) == value
  {
    OrderedMap.PutGet(m.headers, Lower(name), HeaderField(name, [value]));
  }

  /** Setting one field leaves every other field alone. */
  lemma WithHeaderOther(m: Message, name: string, value: string, other: string)
    requires Lower(other) != Lower(name)
    ensures HasHeader(WithHeader(m, name, value), other) == HasHeader(m, other)
    ensures GetHeader(WithHeader(m, name, value), other) == GetHeader(m, other)
  {
    var f := HeaderField(name, [value]);
    OrderedMap.PutOther(m.headers, Lower(name), f, Lower(other));
    PutHasKey(m.headers, Lower(name), f, Lower(other));
  }

  /** An added value goes after the values already there. */
  lemma WithAddedHeaderGet(m: Message, name: string, value: string)
    ensures GetHeader(WithAddedHeader(m, name, value), name) == GetHeader(m, name) + [value]
  {
    OrderedMap.PutGet(m.headers, Lower(name), HeaderField(name, GetHeader(m, name) + [value]));
  }

  /** A removed field is gone; the others are unchanged. */
  lemma WithoutHeaderSpec(m: Message, name: string, other: string)
    ensures !HasHeader(WithoutHeader(m, name), name)
    ensures GetHeader(WithoutHeader(m, name), name) == []
    ensures Lower(other) != Lower(name) ==>
      HasHeader(WithoutHeader(m, name), other) == HasHeader(m, other)
      && GetHeader(WithoutHeader(m, name), other) == GetHeader(m, other)
  {
    OrderedMap.RemoveSpec(m.headers, Lower(name));
    var r := OrderedMap.Remove(m.headers, Lower(name));
    if Lower(other) != Lower(name) {
      GetHasKey(r, Lower(other));
      GetHasKey(m.headers, Lower(other));
    }
  }

  lemma GetHasKey<K, V>(m: seq<(K, V)>, k: K)
    ensures OrderedMap.HasKey(m, k) <==> OrderedMap.Get(m, k).Some?
  {
  }

  lemma PutHasKey<K, V>(m: seq<(K, V)>, k: K, v: V, k': K)
    requires k' != k
    ensures OrderedMap.HasKey(OrderedMap.Put(m, k, v), k') == OrderedMap.HasKey(m, k')
  {
    OrderedMap.PutOther(m, k, v, k');
    GetHasKey(m, k');
    GetHasKey(OrderedMap.Put(m, k, v), k');
  }
}
