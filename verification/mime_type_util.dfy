/**
 * File-name extensions and the media types they stand for, after Apache
 * httpd's `mime.types`.
 */
module MimeTypeUtil {
  import opened Wrappers
  import opened Str

  /**
   * `MIMETYPES`: the media type listed for a lower-case extension. The
   * table is split by the extension's first character; no listed extension
   * is empty.
   */
  function MimeType(extension: string): Option<string> {
    if |extension| == 0 then None
    else
      match extension[0]
      case '3' => StartingWith3(extension)
      case '7' => StartingWith7(extension)
      case 'a' => StartingA(extension)
      case 'b' => StartingB(extension)
      case 'c' => StartingC(extension)
      case 'd' => StartingD(extension)
      case 'e' => StartingE(extension)
      case 'f' => StartingF(extension)
      case 'g' => StartingG(extension)
      case 'h' => StartingH(extension)
      case 'i' => StartingI(extension)
      case 'j' => StartingJ(extension)
      case 'l' => StartingL(extension)
      case 'm' => StartingM(extension)
      case 'o' => StartingO(extension)
      case 'p' => StartingP(extension)
      case 'q' => StartingQ(extension)
      case 'r' => StartingR(extension)
      case 's' => StartingS(extension)
      case 't' => StartingT(extension)
      case 'w' => StartingW(extension)
      case 'x' => StartingX(extension)
      case 'y' => StartingY(extension)
      case 'z' => StartingZ(extension)
      case _ => None
  }

  function StartingWith3(e: string): Option<string> {
    match e
    case "3gp" => Some("video/3gpp")
    case _ => None
  }

  function StartingWith7(e: string): Option<string> {
    match e
    case "7z" => Some("application/x-7z-compressed")
    case _ => None
  }

  function StartingA(e: string): Option<string> {
    match e
    case "aac" => Some("audio/x-aac")
    case "ai" => Some("application/postscript")
    case "aif" => Some("audio/x-aiff")
    case "asc" => Some("text/plain")
    case "asf" => Some("video/x-ms-asf")
    case "atom" => Some("application/atom+xml")
    case "avi" => Some("video/x-msvideo")
    case _ => None
  }

  function StartingB(e: string): Option<string> {
    match e
    case "bmp" => Some("image/bmp")
    case "bz2" => Some("application/x-bzip2")
    case _ => None
  }

  function StartingC(e: string): Option<string> {
    match e
    case "cer" => Some("application/pkix-cert")
    case "crl" => Some("application/pkix-crl")
    case "crt" => Some("application/x-x509-ca-cert")
    case "css" => Some("text/css")
    case "csv" => Some("text/csv")
    case "cu" => Some("application/cu-seeme")
    case _ => None
  }

  function StartingD(e: string): Option<string> {
    match e
    case "deb" => Some("application/x-debian-package")
    case "doc" => Some("application/msword")
    case "docx" => Some("application/vnd.openxmlformats-officedocument.wordprocessingml.document")
    case "dvi" => Some("application/x-dvi")
    case _ => None
  }

  function StartingE(e: string): Option<string> {
    match e
    case "eot" => Some("application/vnd.ms-fontobject")
    case "eps" => Some("application/postscript")
    case "epub" => Some("application/epub+zip")
    case "etx" => Some("text/x-setext")
    case _ => None
  }

  function StartingF(e: string): Option<string> {
    match e
    case "flac" => Some("audio/flac")
    case "flv" => Some("video/x-flv")
    case _ => None
  }

  function StartingG(e: string): Option<string> {
    match e
    case "gif" => Some("image/gif")
    case "gz" => Some("application/gzip")
    case _ => None
  }

  function StartingH(e: string): Option<string> {
    match e
    case "htm" => Some("text/html")
    case "html" => Some("text/html")
    case _ => None
  }

  function StartingI(e: string): Option<string> {
    match e
    case "ico" => Some("image/x-icon")
    case "ics" => Some("text/calendar")
    case "ini" => Some("text/plain")
    case "iso" => Some("application/x-iso9660-image")
    case _ => None
  }

  function StartingJ(e: string): Option<string> {
    match e
    case "jar" => Some("application/java-archive")
    case "jpe" => Some("image/jpeg")
    case "jpeg" => Some("image/jpeg")
    case "jpg" => Some("image/jpeg")
    case "js" => Some("text/javascript")
    case "json" => Some("application/json")
    case _ => None
  }

  function StartingL(e: string): Option<string> {
    match e
    case "latex" => Some("application/x-latex")
    case "log" => Some("text/plain")
    case _ => None
  }

  function StartingM(e: string): Option<string> {
    match e
    case "m4a" => Some("audio/mp4")
    case "m4v" => Some("video/mp4")
    case "mid" => Some("audio/midi")
    case "midi" => Some("audio/midi")
    case "mov" => Some("video/quicktime")
    case "mkv" => Some("video/x-matroska")
    case "mp3" => Some("audio/mpeg")
    case "mp4" => Some("video/mp4")
    case "mp4a" => Some("audio/mp4")
    case "mp4v" => Some("video/mp4")
    case "mpe" => Some("video/mpeg")
    case "mpeg" => Some("video/mpeg")
    case "mpg" => Some("video/mpeg")
    case "mpg4" => Some("video/mp4")
    case _ => None
  }

  function StartingO(e: string): Option<string> {
    match e
    case "oga" => Some("audio/ogg")
    case "ogg" => Some("audio/ogg")
    case "ogv" => Some("video/ogg")
    case "ogx" => Some("application/ogg")
    case _ => None
  }

  function StartingP(e: string): Option<string> {
    match e
    case "pbm" => Some("image/x-portable-bitmap")
    case "pdf" => Some("application/pdf")
    case "pgm" => Some("image/x-portable-graymap")
    case "png" => Some("image/png")
    case "pnm" => Some("image/x-portable-anymap")
    case "ppm" => Some("image/x-portable-pixmap")
    case "ppt" => Some("application/vnd.ms-powerpoint")
    case "pptx" => Some("application/vnd.openxmlformats-officedocument.presentationml.presentation")
    case "ps" => Some("application/postscript")
    case _ => None
  }

  function StartingQ(e: string): Option<string> {
    match e
    case "qt" => Some("video/quicktime")
    case _ => None
  }

  function StartingR(e: string): Option<string> {
    match e
    case "rar" => Some("application/x-rar-compressed")
    case "ras" => Some("image/x-cmu-raster")
    case "rss" => Some("application/rss+xml")
    case "rtf" => Some("application/rtf")
    case _ => None
  }

  function StartingS(e: string): Option<string> {
    match e
    case "sgm" => Some("text/sgml")
    case "sgml" => Some("text/sgml")
    case "svg" => Some("image/svg+xml")
    case "swf" => Some("application/x-shockwave-flash")
    case _ => None
  }

  function StartingT(e: string): Option<string> {
    match e
    case "tar" => Some("application/x-tar")
    case "tif" => Some("image/tiff")
    case "tiff" => Some("image/tiff")
    case "torrent" => Some("application/x-bittorrent")
    case "ttf" => Some("application/x-font-ttf")
    case "txt" => Some("text/plain")
    case _ => None
  }

  function StartingW(e: string): Option<string> {
    match e
    case "wav" => Some("audio/x-wav")
    case "webm" => Some("video/webm")
    case "wma" => Some("audio/x-ms-wma")
    case "wmv" => Some("video/x-ms-wmv")
    case "woff" => Some("application/x-font-woff")
    case "wsdl" => Some("application/wsdl+xml")
    case _ => None
  }

  function StartingX(e: string): Option<string> {
    match e
    case "xbm" => Some("image/x-xbitmap")
    case "xls" => Some("application/vnd.ms-excel")
    case "xlsx" => Some("application/vnd.openxmlformats-officedocument.spreadsheetml.sheet")
    case "xml" => Some("application/xml")
    case "xpm" => Some("image/x-xpixmap")
    case "xwd" => Some("image/x-xwindowdump")
    case _ => None
  }

  function StartingY(e: string): Option<string> {
    match e
    case "yaml" => Some("text/yaml")
    case "yml" => Some("text/yaml")
    case _ => None
  }

  function StartingZ(e: string): Option<string> {
    match e
    case "zip" => Some("application/zip")
    case _ => None
  }

  /** `getFromExtension`: the media type of the lower-cased extension, if it is listed. */
  function GetFromExtension(extension: string): Option<string> {
    MimeType(Lower(extension))
  }

  /** The text after the last `d`, or all of `s` when it holds none. */
  function AfterLast(s: string, d: char): (r: string)
    ensures d !in r
    ensures |r| <= |s| && r == s[|s| - |r|..]
    ensures |r| < |s| ==> s[|s| - |r| - 1] == d
    decreases |s|
  {
    if |s| == 0 then ""
    else if s[|s| - 1] == d then ""
    else
      var t := s[..|s| - 1];
      var p := AfterLast(t, d);
      assert s[|s| - |p| - 1..] == t[|t| - |p|..] + [s[|s| - 1]];
      assert |p| < |t| ==> s[|s| - |p| - 2] == t[|t| - |p| - 1];
      p + [s[|s| - 1]]
  }

  /** `s` without its run of trailing `d`. */
  function DropTrailing(s: string, d: char): (r: string)
    ensures |r| <= |s| && r == s[..|r|]
    ensures |r| > 0 ==> r[|r| - 1] != d
    ensures forall i :: |r| <= i < |s| ==> s[i] == d
    decreases |s|
  {
    if |s| > 0 && s[|s| - 1] == d then DropTrailing(s[..|s| - 1], d) else s
  }

  /** `basename($path)` on a POSIX path: trailing '/' are dropped, then the last segment is kept. */
  function BaseName(path: string): (b: string)
    ensures '/' !in b
  {
    AfterLast(DropTrailing(path, '/'), '/')
  }

  /** `pathinfo($filename, PATHINFO_EXTENSION)`: what follows the last '.' of the base name. */
  function PathExtension(filename: string): (e: string)
    ensures '.' !in e && '/' !in e
  {
    var base := BaseName(filename);
    if '.' in base then AfterLast(base, '.') else ""
  }

  /** `getFromFilename`: the media type of the file name's extension. */
  function GetFromFilename(filename: string): Option<string> {
    GetFromExtension(PathExtension(filename))
  }

  // ---------------------------------------------------------------------------
  // facts

  /** Lookup ignores case. */
  lemma GetFromExtensionCaseInsensitive(extension: string)
    ensures GetFromExtension(extension) == GetFromExtension(Lower(extension))
  {
    LowerIdempotent(extension);
  }

  lemma JsonType()
    ensures GetFromExtension("json") == Some("application/json")
    ensures GetFromExtension("JSON") == Some("application/json")
  {
    assert Lower("json") == "json";
    assert Lower("JSON") == "json";
  }

  /** A name without an extension, the empty name among them, has no media type. */
  lemma GetFromFilenameNoExtension(filename: string)
    requires '.' !in BaseName(filename)
    ensures GetFromFilename(filename) == None
  {
    assert PathExtension(filename) == "";
    assert Lower("") == "";
    assert MimeType("") == None;
  }

  /** A string without `d` is its own last segment. */
  lemma {:induction false} AfterLastNone(s: string, d: char)
    requires d !in s
    ensures AfterLast(s, d) == s
    decreases |s|
  {
    if |s| > 0 {
      AfterLastNone(s[..|s| - 1], d);
      assert s == s[..|s| - 1] + [s[|s| - 1]];
    }
  }

  /** The last segment is what follows the last `d`. */
  lemma {:induction false} AfterLastSuffix(a: string, e: string, d: char)
    requires d !in e
    ensures AfterLast(a + [d] + e, d) == e
    decreases |e|
  {
    var s := a + [d] + e;
    if |e| > 0 {
      var e' := e[..|e| - 1];
      var c := e[|e| - 1];
      assert s[|s| - 1] == c && c != d;
      calc {
        AfterLast(s, d);
        AfterLast(s[..|s| - 1], d) + [c];
        { assert s[..|s| - 1] == a + [d] + e'; }
        AfterLast(a + [d] + e', d) + [c];
        { AfterLastSuffix(a, e', d); }
        e' + [c];
        e;
      }
    } else {
      assert s[|s| - 1] == d;
      assert AfterLast(s, d) == "";
    }
  }

  /** In a file name without a directory part, the extension follows the last '.'. */
  lemma PathExtensionOf(base: string, ext: string)
    requires '/' !in base && '/' !in ext && '.' !in ext
    ensures PathExtension(base + "." + ext) == ext
  {
    var f := base + ['.'] + ext;
    assert '/' !in f;
    assert DropTrailing(f, '/') == f;
    AfterLastNone(f, '/');
    assert '.' in f by {
      assert f[|base|] == '.';
    }
    AfterLastSuffix(base, ext, '.');
  }

  /** Appending a run of `d` to text that does not end in `d` is undone by `DropTrailing`. */
  lemma {:induction false} DropTrailingRun(s: string, run: string, d: char)
    requires |s| > 0 && s[|s| - 1] != d
    requires forall i :: 0 <= i < |run| ==> run[i] == d
    ensures DropTrailing(s + run, d) == s
    decreases |run|
  {
    if |run| > 0 {
      var run' := run[..|run| - 1];
      assert (s + run)[..|s + run| - 1] == s + run';
      DropTrailingRun(s, run', d);
    } else {
      assert s + run == s;
    }
  }

  /** The base name is the last non-empty segment, whatever slashes trail it. */
  lemma BaseNameOf(dir: string, name: string, slashes: string)
    requires |name| > 0 && '/' !in name
    requires forall i :: 0 <= i < |slashes| ==> slashes[i] == '/'
    ensures BaseName(dir + "/" + name + slashes) == name
  {
    var p := dir + ['/'] + name;
    assert p[|p| - 1] == name[|name| - 1];
    DropTrailingRun(p, slashes, '/');
    AfterLastSuffix(dir, name, '/');
  }

  /** The extension follows the last '.' of the last segment, whatever run of '/' trails the name. */
  lemma ExtensionUnderSlashes(dir: string, stem: string, ext: string, slashes: string)
    requires '/' !in stem && '/' !in ext && '.' !in ext
    requires forall i :: 0 <= i < |slashes| ==> slashes[i] == '/'
    ensures PathExtension(dir + "/" + stem + "." + ext + slashes) == ext
  {
    var name := stem + ['.'] + ext;
    var f := dir + "/" + name + slashes;
    assert dir + "/" + stem + "." + ext + slashes == f;
    assert BaseName(f) == name by {
      BaseNameOf(dir, name, slashes);
    }
    assert '.' in name && AfterLast(name, '.') == ext by {
      assert name[|stem|] == '.';
      AfterLastSuffix(stem, ext, '.');
    }
  }

  /** Trailing slashes do not hide the extension: "a/b.json/" is a JSON file. */
  lemma TrailingSlashExtension()
    ensures PathExtension("a/b.json/") == "json"
    ensures GetFromFilename("a/b.json/") == Some("application/json")
  {
    assert "a/b.json/" == "a" + "/" + "b" + "." + "json" + "/";
    ExtensionUnderSlashes("a", "b", "json", "/");
    JsonType();
  }

  /** The empty file name has no media type. */
  lemma GetFromFilenameEmpty()
    ensures GetFromFilename("") == None
  {
    GetFromFilenameNoExtension("");
  }
}
