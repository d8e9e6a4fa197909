/**
 * The procedural helpers of src/message_helpers.php that are not shared
 * with the classes: recursive URL encoding, the text form of a message and
 * body decompression. The file does not declare strict types, so a decoder
 * that fails (`false`) yields the empty string instead of a type error.
 *
 * The URI helpers of the same file (`uriIsDefaultPort`, the `uriIs*`
 * predicates, `uriWithoutQueryValue`, `uriWithQueryValue`) behave exactly as
 * their UriUtil counterparts and are modelled by them.
 */
module MessageHelpers {
  import opened Wrappers
  import opened Str
  import opened PhpValues
  import StreamUtil
  import QueryUtil
  import opened HttpMessage
  import MessageUtil

  /** `r_rawurlencode`: `recursiveRawurlencode` with a type error in place of the invalid-argument one. */
  function RRawurlencode(v: Value): (r: Result<Value>)
    ensures r.Ok? <==> !QueryUtil.HasObject(v)
    ensures r.Err? ==> r.error == TypeError("$data is neither scalar nor null")
    ensures r.Ok? ==> r == QueryUtil.RecursiveRawurlencode(v)
  {
    QueryUtil.RecursiveRawurlencodeFails(v);
    match QueryUtil.RecursiveRawurlencode(v)
    case Ok(e) => Ok(e)
    case Err(_) => Err(TypeError("$data is neither scalar nor null"))
  }

  /** A stream's string form: its content, from the start when it can seek. */
  function StreamText(s: StreamUtil.Stream): string {
    var r := StreamUtil.GetContents(s, false);
    r.0.value
  }

  /** `message_to_string`: like `MessageUtil::toString`, but the request line is trimmed and the body always follows. */
  function MessageToString(m: Message): string {
    TrimmedStartText(m) + MessageUtil.HeaderBlock(GetHeaders(m)) + "\r\n\r\n" + StreamText(m.body)
  }

  /** The start line `message_to_string` writes: the method and target are trimmed together. */
  function TrimmedStartText(m: Message): string {
    match m.start
    case RequestLine(verb, target, uri) => MessageUtil.RequestText(Trim(verb + " " + target), m, uri.host)
    case StatusLine(status, reason) => "HTTP/" + m.version + " " + IntToString(status) + " " + reason
    case NoStartLine => ""
  }

  /**
   * The two serialisations agree whenever the method and target need no
   * trimming: on every response, and on requests such as "GET /".
   */
  lemma MessageToStringAgrees(m: Message)
    requires m.start.RequestLine? ==> Trim(m.start.verb + " " + m.start.target) == m.start.verb + " " + m.start.target
    ensures MessageUtil.ToString(m, None, false) == Ok(MessageToString(m))
  {
    var head := MessageUtil.StartText(m) + MessageUtil.HeaderBlock(GetHeaders(m));
    var body := StreamText(m.body);
    assert MessageUtil.GetContents(m, false) == Ok(body);
    assert MessageUtil.ToString(m, None, false) == Ok(head + "\r\n\r\n" + body);
    assert TrimmedStartText(m) == MessageUtil.StartText(m);
  }

  /** An empty target leaves no stray space in the trimmed request line. */
  lemma MessageToStringEmptyTarget(m: Message)
    requires m.start.RequestLine? && m.start.target == "" && HasHeader(m, "host")
    requires |m.start.verb| > 0 && m.start.verb[0] !in TRIM_CHARS && m.start.verb[|m.start.verb| - 1] !in TRIM_CHARS
    ensures MessageToString(m) ==
      m.start.verb + " HTTP/" + m.version + MessageUtil.HeaderBlock(GetHeaders(m)) + "\r\n\r\n" + StreamText(m.body)
  {
    var v := m.start.verb;
    assert v + " " + "" == v + " ";
    assert TrimLeft(v + " ", TRIM_CHARS) == v + " ";
    TrimRightSpace(v);
    assert Trim(v + " " + m.start.target) == v;
  }

  lemma TrimRightSpace(v: string)
    requires |v| > 0 && v[|v| - 1] !in TRIM_CHARS
    ensures TrimRight(v + " ", TRIM_CHARS) == v
  {
    assert (v + " ")[..|v|] == v;
  }

  /**
   * `decompress_content`: 'br' needs the brotli extension; compress, deflate,
   * gzip and x-gzip use the zlib decoders, whose failure gives ""; any other
   * encoding leaves the body as it is.
   */
  function DecompressContent(m: Message, codec: (MessageUtil.Codec, string) -> Option<string>,
                             loaded: MessageUtil.Codec -> bool): (r: Result<string>)
    ensures var encoding := Lower(GetHeaderLine(m, "content-encoding"));
      && (r.Err? <==> encoding == "br" && !loaded(MessageUtil.Brotli))
      && (r.Err? ==> r.error == Runtime("cannot decompress brotli compressed message body"))
      && (encoding !in {"br", "compress", "deflate", "gzip", "x-gzip"} ==> r == Ok(StreamText(m.body)))
  {
    var data := StreamText(m.body);
    var encoding := Lower(GetHeaderLine(m, "content-encoding"));
    if encoding == "br" then
      if loaded(MessageUtil.Brotli) then Ok(codec(MessageUtil.Brotli, data).GetOr(""))
      else Err(Runtime("cannot decompress brotli compressed message body"))
    else if encoding == "compress" then Ok(codec(MessageUtil.Compress, data).GetOr(""))
    else if encoding == "deflate" then Ok(codec(MessageUtil.Deflate, data).GetOr(""))
    else if encoding == "gzip" || encoding == "x-gzip" then Ok(codec(MessageUtil.Gzip, data).GetOr(""))
    else Ok(data)
  }

  /**
   * How the two decompressors relate: they agree on identity and on every
   * successful zlib decode; an unknown encoding is an error for the class
   * but passes the body through here, and a failed zlib decode is an error
   * there and "" here.
   */
  lemma DecompressVersions(m: Message, codec: (MessageUtil.Codec, string) -> Option<string>,
                           loaded: MessageUtil.Codec -> bool)
    ensures var encoding := Lower(GetHeaderLine(m, "content-encoding"));
      var data := StreamText(m.body);
      var helper := DecompressContent(m, codec, loaded);
      var util := MessageUtil.Decompress(m, false, codec, loaded);
      && (encoding in {"", "identity"} ==> helper == util == Ok(data))
      && (encoding !in MessageUtil.KNOWN_ENCODINGS ==> helper == Ok(data) && util.Err?)
      && (encoding in {"gzip", "x-gzip"} ==> var d := codec(MessageUtil.Gzip, data);
            (d.Some? ==> helper == util == Ok(d.value)) && (d.None? ==> helper == Ok("") && util.Err?))
  {
  }
}
