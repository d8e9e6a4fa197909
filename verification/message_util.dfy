/**
 * Message-level helpers (src/MessageUtil.php): reading the body, the text
 * form of a message, body decompression and the Content-Length and
 * Content-Type defaults.
 *
 * Whether reading the body throws is the parameter `readFails`; the
 * decoders are the parameter `codec`, and `loaded` says which optional
 * decoder extensions are installed.
 */
module MessageUtil {
  import opened Wrappers
  import opened Str
  import StreamUtil
  import MimeTypeUtil
  import opened HttpMessage

  // ---------------------------------------------------------------------------
  // getContents

  /** `getContents`: the body as the stream helper reads it; a failed read is an error. */
  function GetContents(m: Message, readFails: bool): (r: Result<string>)
    ensures r.Err? <==> readFails
    ensures r.Err? ==> r.error == Runtime("invalid message content")
    ensures r.Ok? && (m.body.seekable || !m.body.readable) ==> r.value == m.body.data
    ensures r.Ok? && m.body.readable && !m.body.seekable ==> r.value == StreamUtil.Rest(m.body)
  {
    match StreamUtil.GetContents(m.body, readFails).0
    case Some(c) => Ok(c)
    case None => Err(Runtime("invalid message content"))
  }

  // ---------------------------------------------------------------------------
  // toString

  /** The request line (with a Host line when there is no host header) or the status line. */
  function StartText(m: Message): string {
    match m.start
    case RequestLine(verb, target, uri) => RequestText(verb + " " + target, m, uri.host)
    case StatusLine(status, reason) => "HTTP/" + m.version + " " + IntToString(status) + " " + reason
    case NoStartLine => ""
  }

  /** "<method and target> HTTP/<version>", then a Host line unless the message has a host header. */
  function RequestText(line: string, m: Message, host: string): string {
    line + " HTTP/" + m.version + (if HasHeader(m, "host") then "" else "\r\nHost: " + host)
  }

  function HeaderText(h: (string, seq<string>)): string {
    "\r\n" + h.0 + ": " + Join(h.1, ", ")
  }

  /** One "\r\nName: v1, v2" line per field, in field order. */
  function HeaderBlock(hs: seq<(string, seq<string>)>): string {
    if |hs| == 0 then "" else HeaderBlock(hs[..|hs| - 1]) + HeaderText(hs[|hs| - 1])
  }

  /** `toString`: start line and header lines, then "\r\n\r\n" and the body unless `appendBody` is false. */
  function ToString(m: Message, appendBody: Option<bool>, readFails: bool): (r: Result<string>)
    ensures r.Err? <==> appendBody != Some(false) && readFails
  {
    var head := StartText(m) + HeaderBlock(GetHeaders(m));
    if appendBody.GetOr(true) then
      var content :- GetContents(m, readFails);
      Ok(head + "\r\n\r\n" + content)
    else Ok(head)
  }

  /** The header lines of a prefix of the fields are a prefix of the header block. */
  lemma {:induction false} HeaderBlockPrefix(hs: seq<(string, seq<string>)>, i: nat)
    requires i < |hs|
    ensures HeaderBlock(hs[..i]) + HeaderText(hs[i]) <= HeaderBlock(hs)
    decreases |hs|
  {
    var n := |hs| - 1;
    assert hs[..n + 1] == hs;
    if i < n {
      HeaderBlockPrefix(hs[..n], i);
      assert hs[..n][..i] == hs[..i];
      assert hs[..n][i] == hs[i];
    } else {
      assert hs[..i] == hs[..n];
    }
  }

  /** Without the body, the text is the start line and the header lines; with it, "\r\n\r\n" and the content follow. */
  lemma ToStringShape(m: Message, readFails: bool)
    ensures ToString(m, Some(false), readFails) == Ok(StartText(m) + HeaderBlock(GetHeaders(m)))
    ensures !readFails ==>
      ToString(m, None, readFails) == ToString(m, Some(true), readFails)
      == Ok(ToString(m, Some(false), readFails).value + "\r\n\r\n" + GetContents(m, readFails).value)
  {
  }

  /** Whatever the body does, the text starts with the start line and the header lines. */
  lemma ToStringHead(m: Message, appendBody: Option<bool>, readFails: bool)
    requires ToString(m, appendBody, readFails).Ok?
    ensures StartText(m) + HeaderBlock(GetHeaders(m)) <= ToString(m, appendBody, readFails).value
  {
    var head := StartText(m) + HeaderBlock(GetHeaders(m));
    if appendBody.GetOr(true) {
      var r := ToString(m, appendBody, readFails).value;
      assert r == head + ("\r\n\r\n" + GetContents(m, readFails).value);
    }
  }

  /** A request starts "METHOD target HTTP/version"; a Host line follows iff there is no host header. */
  lemma ToStringRequest(m: Message, appendBody: Option<bool>, readFails: bool)
    requires m.start.RequestLine? && ToString(m, appendBody, readFails).Ok?
    ensures var line := m.start.verb + " " + m.start.target + " HTTP/" + m.version;
      var host := "\r\nHost: " + m.start.uri.host;
      var r := ToString(m, appendBody, readFails).value;
      && line <= r
      && (!HasHeader(m, "host") ==> line + host <= r)
      && (HasHeader(m, "host") ==> r == line + HeaderBlock(GetHeaders(m)) + r[|line + HeaderBlock(GetHeaders(m))|..])
  {
    var line := m.start.verb + " " + m.start.target + " HTTP/" + m.version;
    var host := "\r\nHost: " + m.start.uri.host;
    var r := ToString(m, appendBody, readFails).value;
    var block := HeaderBlock(GetHeaders(m));
    ToStringHead(m, appendBody, readFails);
    if HasHeader(m, "host") {
      assert StartText(m) == line;
      PrefixRest(line + block, r);
      PrefixOfPrefix(line, block, r);
    } else {
      assert StartText(m) == line + host;
      PrefixOfPrefix(line + host, block, r);
      PrefixOfPrefix(line, host, r);
    }
  }

  /** A response starts "HTTP/version code reason"; each field's line follows in field order. */
  lemma ToStringResponse(m: Message, appendBody: Option<bool>, readFails: bool, i: nat)
    requires m.start.StatusLine? && ToString(m, appendBody, readFails).Ok?
    requires i < |m.headers|
    ensures var line := "HTTP/" + m.version + " " + IntToString(m.start.status) + " " + m.start.reason;
      var hs := GetHeaders(m);
      var r := ToString(m, appendBody, readFails).value;
      line + HeaderBlock(hs[..i]) + "\r\n" + m.headers[i].1.name + ": " + Join(m.headers[i].1.values, ", ") <= r
  {
    var hs := GetHeaders(m);
    var line := "HTTP/" + m.version + " " + IntToString(m.start.status) + " " + m.start.reason;
    var r := ToString(m, appendBody, readFails).value;
    var lineI := HeaderBlock(hs[..i]) + HeaderText(hs[i]);
    ToStringHead(m, appendBody, readFails);
    assert StartText(m) == line;
    HeaderBlockPrefix(hs, i);
    PrefixAppend(line, lineI, HeaderBlock(hs));
    PrefixTrans(line + lineI, line + HeaderBlock(hs), r);
    assert hs[i] == (m.headers[i].1.name, m.headers[i].1.values);
    ConcatSix(line, HeaderBlock(hs[..i]), "\r\n", m.headers[i].1.name, ": ", Join(m.headers[i].1.values, ", "));
  }

  lemma ConcatSix(a: string, b: string, c: string, d: string, e: string, f: string)
    ensures a + (b + (c + d + e + f)) == a + b + c + d + e + f
  {
  }

  lemma PrefixAppend(p: string, a: string, b: string)
    requires a <= b
    ensures p + a <= p + b
  {
    assert (p + b)[..|p + a|] == p + a;
  }

  lemma PrefixOfPrefix(a: string, b: string, r: string)
    requires a + b <= r
    ensures a <= r
  {
    assert r[..|a|] == (a + b)[..|a|];
  }

  lemma PrefixTrans(a: string, b: string, r: string)
    requires a <= b && b <= r
    ensures a <= r
  {
    assert r[..|a|] == b[..|a|];
  }

  lemma PrefixRest(p: string, r: string)
    requires p <= r
    ensures r == p + r[|p|..]
  {
    assert r == r[..|p|] + r[|p|..];
  }

  // ---------------------------------------------------------------------------
  // decompress

  /** The decoders behind `gzdecode`, `gzuncompress`, `gzinflate`, `brotli_uncompress` and `zstd_uncompress`. */
  datatype Codec = Gzip | Compress | Deflate | Brotli | Zstd

  function CodecName(c: Codec): string {
    match c
    case Gzip => "gzip"
    case Compress => "compress"
    case Deflate => "deflate"
    case Brotli => "brotli"
    case Zstd => "zstd"
  }

  /**
   * A zlib decoder's answer: its failure (`false`) is not a string, and the
   * resulting type error is reported as an unknown encoding.
   */
  function Decoded(o: Option<string>, encoding: string): (r: Result<string>)
    ensures r.Ok? <==> o.Some?
    ensures r.Ok? ==> r.value == o.value
  {
    match o
    case Some(d) => Ok(d)
    case None => Err(Runtime("unknown content-encoding value: " + encoding))
  }

  /** PHP's message when `call_decompress_func`'s declared `string` return meets a decoder's `false`. */
  const DECOMPRESS_TYPE_ERROR: string :=
    "chillerlan\\HTTP\\Utils\\MessageUtil::call_decompress_func(): Return value must be of type string, bool returned"

  /** `call_decompress_func`: the extension must be installed; its failure is a type error that is passed on. */
  function CallDecompress(c: Codec, data: string, codec: (Codec, string) -> Option<string>, loaded: Codec -> bool): (r: Result<string>)
    ensures !loaded(c) ==> r == Err(Runtime("cannot decompress " + CodecName(c) + " compressed message body"))
    ensures loaded(c) ==> (r.Ok? <==> codec(c, data).Some?)
    ensures loaded(c) && codec(c, data).None? ==> r == Err(TypeError(DECOMPRESS_TYPE_ERROR))
  {
    if !loaded(c) then Err(Runtime("cannot decompress " + CodecName(c) + " compressed message body"))
    else match codec(c, data)
      case Some(d) => Ok(d)
      case None => Err(TypeError(DECOMPRESS_TYPE_ERROR))
  }

  /** The encodings `decompress` knows, lower-cased. */
  const KNOWN_ENCODINGS: set<string> := {"", "identity", "gzip", "x-gzip", "compress", "deflate", "br", "zstd"}

  /** `decompress`: dispatches on the lower-cased Content-Encoding. */
  function Decompress(m: Message, readFails: bool, codec: (Codec, string) -> Option<string>, loaded: Codec -> bool): (r: Result<string>)
    ensures readFails ==> r == Err(Runtime("invalid message content"))
    ensures !readFails && Lower(GetHeaderLine(m, "content-encoding")) in {"", "identity"} ==> r == GetContents(m, false)
    ensures !readFails && Lower(GetHeaderLine(m, "content-encoding")) !in KNOWN_ENCODINGS ==>
      r == Err(Runtime("unknown content-encoding value: " + Lower(GetHeaderLine(m, "content-encoding"))))
  {
    var data :- GetContents(m, readFails);
    var encoding := Lower(GetHeaderLine(m, "content-encoding"));
    if encoding == "" || encoding == "identity" then Ok(data)
    else if encoding == "gzip" || encoding == "x-gzip" then Decoded(codec(Gzip, data), encoding)
    else if encoding == "compress" then Decoded(codec(Compress, data), encoding)
    else if encoding == "deflate" then Decoded(codec(Deflate, data), encoding)
    else if encoding == "br" then CallDecompress(Brotli, data, codec, loaded)
    else if encoding == "zstd" then CallDecompress(Zstd, data, codec, loaded)
    else Err(Runtime("unknown content-encoding value: " + encoding))
  }

  /** The encoding is read without regard to case: "GZIP" and "gzip" decode alike. */
  lemma DecompressCaseInsensitive(m: Message, readFails: bool, codec: (Codec, string) -> Option<string>, loaded: Codec -> bool, value: string)
    ensures Decompress(WithHeader(m, "Content-Encoding", value), readFails, codec, loaded)
         == Decompress(WithHeader(m, "Content-Encoding", Lower(value)), readFails, codec, loaded)
  {
    WithHeaderGet(m, "Content-Encoding", value, "content-encoding");
    WithHeaderGet(m, "Content-Encoding", Lower(value), "content-encoding");
    LowerIdempotent(value);
  }

  // ---------------------------------------------------------------------------
  // setContentLengthHeader

  /** `setContentLengthHeader`: adds the body size when the header is missing and the size is known and positive. */
  function SetContentLengthHeader(m: Message): (r: Message)
    ensures r.start == m.start && r.version == m.version && r.body == m.body
  {
    var size := m.body.size;
    if !HasHeader(m, "Content-Length") && size.Some? && size.value > 0 then
      WithHeader(m, "Content-Length", IntToString(size.value))
    else m
  }

  /**
   * The header is added exactly when it was missing and the size known and
   * positive, and then reads back as the size; otherwise nothing changes.
   */
  lemma SetContentLengthSpec(m: Message)
    ensures var r := SetContentLengthHeader(m);
      var adds := !HasHeader(m, "Content-Length") && m.body.size.Some? && m.body.size.value > 0;
      && (adds ==> HasHeader(r, "Content-Length") && IntCast(GetHeaderLine(r, "Content-Length")) == m.body.size.value)
      && (!adds ==> r == m)
      && (forall other :: Lower(other) != "content-length" ==> GetHeader(r, other) == GetHeader(m, other))
  {
    var r := SetContentLengthHeader(m);
    if !HasHeader(m, "Content-Length") && m.body.size.Some? && m.body.size.value > 0 {
      WithHeaderGet(m, "Content-Length", IntToString(m.body.size.value), "Content-Length");
      IntCastInt(m.body.size.value);
      forall other | Lower(other) != "content-length"
        ensures GetHeader(r, other) == GetHeader(m, other)
      {
        assert Lower("Content-Length") == "content-length";
        WithHeaderOther(m, "Content-Length", IntToString(m.body.size.value), other);
      }
    }
  }

  /** Applying it twice is applying it once. */
  lemma SetContentLengthIdempotent(m: Message)
    ensures SetContentLengthHeader(SetContentLengthHeader(m)) == SetContentLengthHeader(m)
  {
    SetContentLengthSpec(m);
  }

  // ---------------------------------------------------------------------------
  // setContentTypeHeader

  /** The characters `setContentTypeHeader` trims off an extension: dots and white space other than ' '. */
  const EXTENSION_TRIM: set<char> := {'.', '\t', '\n', '\r', '\0', '\U{000B}'}

  /**
   * `setContentTypeHeader`: the type of the trimmed extension, else of the
   * file name, else sniffed from the content by `sniff`.
   */
  function SetContentTypeHeader(m: Message, filename: Option<string>, extension: Option<string>,
                                sniff: string -> Option<string>, readFails: bool): (r: Result<Message>)
    ensures r.Ok? ==> r.value.start == m.start && r.value.body == m.body && HasHeader(r.value, "Content-Type")
  {
    var byExtension := MimeTypeUtil.GetFromExtension(TrimBy(extension.GetOr(""), EXTENSION_TRIM));
    var byName := MimeTypeUtil.GetFromFilename(filename.GetOr(""));
    SetContentType(m, ChooseType(byExtension, byName, GetContents(m, readFails), sniff))
  }

  /** The first type found: by extension, by file name, then sniffed from the content, which is read only then. */
  function ChooseType(byExtension: Option<string>, byName: Option<string>, content: Result<string>,
                      sniff: string -> Option<string>): (r: Result<string>)
    ensures byExtension.Some? ==> r == Ok(byExtension.value)
    ensures byExtension.None? && byName.Some? ==> r == Ok(byName.value)
    ensures byExtension.None? && byName.None? && content.Err? ==> r == Err(content.error)
    ensures byExtension.None? && byName.None? && content.Ok? ==>
      r == if sniff(content.value).Some? then Ok(sniff(content.value).value)
           else Err(Runtime("could not determine content type"))
  {
    if byExtension.Some? then Ok(byExtension.value)
    else if byName.Some? then Ok(byName.value)
    else if content.Err? then Err(content.error)
    else if sniff(content.value).Some? then Ok(sniff(content.value).value)
    else Err(Runtime("could not determine content type"))
  }

  /** Sets Content-Type to the chosen type, or passes the choice's error on. */
  function SetContentType(m: Message, mime: Result<string>): (r: Result<Message>)
    ensures mime.Err? ==> r == Err(mime.error)
    ensures mime.Ok? ==> r.Ok? && r.value.start == m.start && r.value.body == m.body
    ensures mime.Ok? ==> HasHeader(r.value, "Content-Type") && GetHeaderLine(r.value, "Content-Type") == mime.value
  {
    if mime.Err? then Err(mime.error)
    else
      WithHeaderGet(m, "Content-Type", mime.value, "Content-Type");
      Ok(WithHeader(m, "Content-Type", mime.value))
  }

  /** The sources are tried in order: extension, file name, content; none gives an error. */
  lemma SetContentTypePrecedence(m: Message, filename: Option<string>, extension: Option<string>,
                                 sniff: string -> Option<string>, readFails: bool)
    ensures var r := SetContentTypeHeader(m, filename, extension, sniff, readFails);
      var byExtension := MimeTypeUtil.GetFromExtension(TrimBy(extension.GetOr(""), EXTENSION_TRIM));
      var byName := MimeTypeUtil.GetFromFilename(filename.GetOr(""));
      && (byExtension.Some? ==> r.Ok? && GetHeaderLine(r.value, "Content-Type") == byExtension.value)
      && (byExtension.None? && byName.Some? ==> r.Ok? && GetHeaderLine(r.value, "Content-Type") == byName.value)
      && (byExtension.None? && byName.None? && readFails ==> r == Err(Runtime("invalid message content")))
      && (byExtension.None? && byName.None? && !readFails ==>
            var sniffed := sniff(GetContents(m, false).value);
            (sniffed.None? ==> r == Err(Runtime("could not determine content type")))
            && (sniffed.Some? ==> r.Ok? && GetHeaderLine(r.value, "Content-Type") == sniffed.value))
  {
    var byExtension := MimeTypeUtil.GetFromExtension(TrimBy(extension.GetOr(""), EXTENSION_TRIM));
    var byName := MimeTypeUtil.GetFromFilename(filename.GetOr(""));
    var content := GetContents(m, readFails);
    var mime := ChooseType(byExtension, byName, content, sniff);
    assert SetContentTypeHeader(m, filename, extension, sniff, readFails) == SetContentType(m, mime);
  }
}
