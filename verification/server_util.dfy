/**
 * Server-side helpers (src/ServerUtil.php): the request URI rebuilt from the
 * server parameters, and `$_FILES` specifications turned into uploaded-file
 * values.
 *
 * The server parameters are a map from name to string; an entry that is
 * null counts as missing, as `isset` and `empty` treat it. An uploaded file
 * is recorded by the arguments given to the file factory, its stream by the
 * temporary file name it is opened from.
 */
module ServerUtil {
  import opened Wrappers
  import opened Str
  import opened PhpValues
  import OrderedMap
  import UriUtil

  type ServerParams = map<string, string>

  /** `!empty($_SERVER['HTTPS']) && $_SERVER['HTTPS'] !== 'off'`. */
  predicate IsHttps(server: ServerParams) {
    "HTTPS" in server && !Empty(VStr(server["HTTPS"])) && server["HTTPS"] != "off"
  }

  /** The host and, when the Host header names one, the port. */
  function HostAndPort(server: ServerParams): (string, Option<int>) {
    if "HTTP_HOST" in server then
      var parts := Split(server["HTTP_HOST"], ':');
      (parts[0], if |parts| > 1 then Some(IntCast(parts[1])) else None)
    else if "SERVER_NAME" in server then (server["SERVER_NAME"], None)
    else if "SERVER_ADDR" in server then (server["SERVER_ADDR"], None)
    else ("", None)
  }

  /** The path and, when the request URI holds a '?', the query. */
  function PathAndQuery(server: ServerParams): (string, Option<string>) {
    if "REQUEST_URI" in server then
      var parts := Split(server["REQUEST_URI"], '?');
      (parts[0], if |parts| > 1 then Some(parts[1]) else None)
    else ("", None)
  }

  /**
   * `createUriFromGlobals`: scheme from HTTPS; host from the Host header,
   * the server name or the server address; port from the Host header, else
   * SERVER_PORT; path and query from the request URI, with QUERY_STRING as
   * the fallback query.
   */
  function CreateUriFromGlobals(server: ServerParams): (u: UriUtil.Uri)
    ensures u.scheme == "https" || u.scheme == "http"
    ensures u.userInfo == "" && u.fragment == ""
  {
    var (host, hostPort) := HostAndPort(server);
    var (path, pathQuery) := PathAndQuery(server);
    UriUtil.Uri(
      if IsHttps(server) then "https" else "http",
      "",
      host,
      if hostPort.Some? then hostPort else if "SERVER_PORT" in server then Some(IntCast(server["SERVER_PORT"])) else None,
      path,
      if pathQuery.Some? then pathQuery.value else if "QUERY_STRING" in server then server["QUERY_STRING"] else "",
      "")
  }

  /** The scheme is https iff HTTPS is set, not empty ("" or "0") and not "off". */
  lemma SchemeSpec(server: ServerParams)
    ensures CreateUriFromGlobals(server).scheme == "https" <==>
      "HTTPS" in server && server["HTTPS"] !in {"", "0", "off"}
  {
  }

  /** The host falls back from HTTP_HOST (before its first ':') to SERVER_NAME to SERVER_ADDR. */
  lemma HostSpec(server: ServerParams)
    ensures var u := CreateUriFromGlobals(server);
      && ("HTTP_HOST" in server ==>
            (':' !in u.host && u.host <= server["HTTP_HOST"]
             && (':' in server["HTTP_HOST"] <==> |u.host| < |server["HTTP_HOST"]|)))
      && ("HTTP_HOST" in server && ':' !in server["HTTP_HOST"] ==> u.host == server["HTTP_HOST"])
      && ("HTTP_HOST" !in server && "SERVER_NAME" in server ==> u.host == server["SERVER_NAME"])
      && ("HTTP_HOST" !in server && "SERVER_NAME" !in server && "SERVER_ADDR" in server ==> u.host == server["SERVER_ADDR"])
      && ("HTTP_HOST" !in server && "SERVER_NAME" !in server && "SERVER_ADDR" !in server ==> u.host == "")
  {
    if "HTTP_HOST" in server {
      var h := server["HTTP_HOST"];
      var i := FirstIndex(h, ':');
      if i < |h| {
        assert h[i] == ':';
      } else {
        SplitNoDelim(h, ':');
      }
    }
  }

  /** Rebuilding from a Host header with a port and a request URI with a query gives back each part. */
  lemma CreateUriRoundTrip(host: string, port: nat, path: string, query: string, server: ServerParams)
    requires ':' !in host && '?' !in path && '?' !in query
    requires "HTTP_HOST" in server && server["HTTP_HOST"] == host + ":" + NatToString(port)
    requires "REQUEST_URI" in server && server["REQUEST_URI"] == path + "?" + query
    ensures var u := CreateUriFromGlobals(server);
      u.host == host && u.port == Some(port) && u.path == path && u.query == query
  {
    var d := NatToString(port);
    assert ':' !in d by {
      assert forall k :: 0 <= k < |d| ==> IsDigit(d[k]);
    }
    SplitTwo(host, d, ':');
    SplitTwo(path, query, '?');
    IntCastNat(port);
  }

  /** Splitting "a" + d + "b", where neither part holds d, gives the two parts. */
  lemma SplitTwo(a: string, b: string, d: char)
    requires d !in a && d !in b
    ensures Split(a + [d] + b, d) == [a, b]
  {
    SplitJoin([a, b], d);
    assert Join([a, b], [d]) == a + [d] + b by {
      JoinCons(a, [b], [d]);
    }
  }

  /** A port after ':' in the Host header wins over SERVER_PORT. */
  lemma PortSpec(server: ServerParams)
    ensures var u := CreateUriFromGlobals(server);
      && ("HTTP_HOST" in server && ':' in server["HTTP_HOST"] ==> u.port == Some(IntCast(Split(server["HTTP_HOST"], ':')[1])))
      && (("HTTP_HOST" !in server || ':' !in server["HTTP_HOST"]) ==>
            u.port == if "SERVER_PORT" in server then Some(IntCast(server["SERVER_PORT"])) else None)
  {
    if "HTTP_HOST" in server {
      var h := server["HTTP_HOST"];
      if ':' in h {
        SplitHasTwo(h, ':');
      } else {
        SplitNoDelim(h, ':');
      }
    }
  }

  lemma SplitHasTwo(s: string, d: char)
    requires d in s
    ensures |Split(s, d)| >= 2
  {
    var i := FirstIndex(s, d);
    assert i < |s| by {
      var k :| 0 <= k < |s| && s[k] == d;
    }
  }

  /** QUERY_STRING is read only when the request URI holds no '?'. */
  lemma QuerySpec(server: ServerParams)
    ensures var u := CreateUriFromGlobals(server);
      && ("REQUEST_URI" in server && '?' in server["REQUEST_URI"] ==>
            u.query == Split(server["REQUEST_URI"], '?')[1] && u.path == Split(server["REQUEST_URI"], '?')[0])
      && (("REQUEST_URI" !in server || '?' !in server["REQUEST_URI"]) ==>
            u.query == if "QUERY_STRING" in server then server["QUERY_STRING"] else "")
      && ("REQUEST_URI" in server && '?' !in server["REQUEST_URI"] ==> u.path == server["REQUEST_URI"])
  {
    if "REQUEST_URI" in server {
      var r := server["REQUEST_URI"];
      if '?' in r {
        SplitHasTwo(r, '?');
      } else {
        SplitNoDelim(r, '?');
      }
    }
  }

  // ---------------------------------------------------------------------------
  // uploaded files

  const INVALID_FILES: string := "Invalid value in files specification"

  /** The type error raised when a temporary file name is not a string. */
  const NOT_A_FILE_NAME: string := "createStreamFromFile(): Argument #1 ($file) must be of type string"

  /**
   * `createUploadedFileFromSpec` on the five fields of a spec: an array of
   * temporary names becomes an array of files; a name becomes a file.
   */
  function FromSpec(tmpName: Value, size: Value, error: Value, name: Value, mediaType: Value): (r: Result<Value>)
    ensures tmpName.VStr? ==> r == Ok(VFile(UploadedFile(tmpName.s, ToInt(size), ToInt(error), name, mediaType)))
    ensures !tmpName.VStr? && !tmpName.VArr? ==> r == Err(TypeError(NOT_A_FILE_NAME))
    decreases tmpName, 1
  {
    match tmpName
    case VArr(_) =>
      var es :- NestedFrom(tmpName, size, error, name, mediaType, 0);
      Ok(VArr(es))
    case VStr(file) => Ok(VFile(UploadedFile(file, ToInt(size), ToInt(error), name, mediaType)))
    case _ => Err(TypeError(NOT_A_FILE_NAME))
  }

  /** `normalizeNestedFileSpec`: one entry per key of the temporary names, from the i-th of each field. */
  function NestedFrom(tmpNames: Value, size: Value, error: Value, name: Value, mediaType: Value, i: nat): (r: Result<seq<(Key, Value)>>)
    requires tmpNames.VArr? && i <= |tmpNames.entries|
    ensures r.Ok? ==> |r.value| == |tmpNames.entries| - i
    ensures r.Ok? ==> forall j :: 0 <= j < |r.value| ==> r.value[j].0 == tmpNames.entries[i + j].0
    decreases tmpNames, 0, |tmpNames.entries| - i
  {
    if i == |tmpNames.entries| then Ok([])
    else
      var key := tmpNames.entries[i].0;
      var file :- FromSpec(tmpNames.entries[i].1, Index(size, key), Index(error, key), Index(name, key), Index(mediaType, key));
      var rest :- NestedFrom(tmpNames, size, error, name, mediaType, i + 1);
      Ok([(key, file)] + rest)
  }

  /** `createUploadedFileFromSpec($value)`. */
  function CreateUploadedFileFromSpec(spec: Value): Result<Value> {
    FromSpec(Index(spec, StrKey("tmp_name")), Index(spec, StrKey("size")), Index(spec, StrKey("error")),
             Index(spec, StrKey("name")), Index(spec, StrKey("type")))
  }

  /**
   * `normalizeFiles`, from entry `i` of the array `files`: uploaded files are
   * kept, arrays with a temporary name are specs, other arrays are walked,
   * and anything else is invalid.
   */
  function NormalizeFrom(files: Value, i: nat): (r: Result<seq<(Key, Value)>>)
    requires files.VArr? && i <= |files.entries|
    ensures r.Ok? ==> |r.value| == |files.entries| - i
    ensures r.Ok? ==> forall j :: 0 <= j < |r.value| ==> r.value[j].0 == files.entries[i + j].0
    decreases files, 0, |files.entries| - i
  {
    if i == |files.entries| then Ok([])
    else
      var (key, v) := files.entries[i];
      var n :-
        if v.VFile? then Ok(v)
        else if v.VArr? && IsSet(v, StrKey("tmp_name")) then CreateUploadedFileFromSpec(v)
        else if v.VArr? then
          assert files.entries[i] in files.entries;
          var es :- NormalizeFrom(v, 0);
          Ok(VArr(es))
        else Err(InvalidArgument(INVALID_FILES));
      var rest :- NormalizeFrom(files, i + 1);
      Ok([(key, n)] + rest)
  }

  function NormalizeFiles(files: seq<(Key, Value)>): Result<seq<(Key, Value)>> {
    NormalizeFrom(VArr(files), 0)
  }

  // ---------------------------------------------------------------------------
  // facts

  /** Normalising keeps every key, in order. */
  lemma NormalizeFilesKeys(files: seq<(Key, Value)>)
    requires NormalizeFiles(files).Ok?
    ensures OrderedMap.Keys(NormalizeFiles(files).value) == OrderedMap.Keys(files)
  {
  }

  /** Uploaded files pass through unchanged; a value that is neither a file nor an array is rejected. */
  lemma {:induction false} NormalizeFilesEntry(files: Value, i: nat, j: nat)
    requires files.VArr? && i <= j < |files.entries|
    ensures var v := files.entries[j].1;
      var r := NormalizeFrom(files, i);
      && (!v.VFile? && !v.VArr? ==> r.Err?)
      && (v.VFile? && r.Ok? ==> r.value[j - i] == (files.entries[j].0, v))
    decreases |files.entries| - i
  {
    if i < j {
      NormalizeFilesEntry(files, i + 1, j);
    }
  }

  /** A top-level entry such as "foo" is an error with the library's message. */
  lemma NormalizeFilesInvalid(key: Key, s: string)
    ensures NormalizeFiles([(key, VStr(s))]) == Err(InvalidArgument(INVALID_FILES))
  {
  }

  /** The file made from entry `k` of the temporary names and the same key of the other fields. */
  function SpecFile(tmpNames: Value, size: Value, error: Value, name: Value, mediaType: Value, k: nat): (Key, Value)
    requires tmpNames.VArr? && k < |tmpNames.entries| && tmpNames.entries[k].1.VStr?
  {
    var key := tmpNames.entries[k].0;
    (key, VFile(UploadedFile(tmpNames.entries[k].1.s, ToInt(Index(size, key)), ToInt(Index(error, key)),
                             Index(name, key), Index(mediaType, key))))
  }

  /** The files made from entries `i` onwards, one per entry. */
  function SpecFiles(tmpNames: Value, size: Value, error: Value, name: Value, mediaType: Value, i: nat): (r: seq<(Key, Value)>)
    requires tmpNames.VArr? && i <= |tmpNames.entries|
    requires forall k :: i <= k < |tmpNames.entries| ==> tmpNames.entries[k].1.VStr?
    ensures |r| == |tmpNames.entries| - i
    ensures forall j :: 0 <= j < |r| ==> r[j] == SpecFile(tmpNames, size, error, name, mediaType, i + j)
    decreases |tmpNames.entries| - i
  {
    if i == |tmpNames.entries| then []
    else [SpecFile(tmpNames, size, error, name, mediaType, i)] + SpecFiles(tmpNames, size, error, name, mediaType, i + 1)
  }

  /**
   * A spec whose temporary names are an array of strings yields one file per
   * key, in order, each built from the name, type, size and error under the
   * same key.
   */
  lemma {:induction false} NestedSpec(tmpNames: Value, size: Value, error: Value, name: Value, mediaType: Value, i: nat)
    requires tmpNames.VArr? && i <= |tmpNames.entries|
    requires forall k :: i <= k < |tmpNames.entries| ==> tmpNames.entries[k].1.VStr?
    ensures NestedFrom(tmpNames, size, error, name, mediaType, i) == Ok(SpecFiles(tmpNames, size, error, name, mediaType, i))
    decreases |tmpNames.entries| - i
  {
    if i < |tmpNames.entries| {
      NestedSpec(tmpNames, size, error, name, mediaType, i + 1);
      var key := tmpNames.entries[i].0;
      var f := FromSpec(tmpNames.entries[i].1, Index(size, key), Index(error, key), Index(name, key), Index(mediaType, key));
      assert f == Ok(SpecFile(tmpNames, size, error, name, mediaType, i).1);
      assert NestedFrom(tmpNames, size, error, name, mediaType, i) == Ok([(key, f.value)] + NestedFrom(tmpNames, size, error, name, mediaType, i + 1).value);
    }
  }
}
