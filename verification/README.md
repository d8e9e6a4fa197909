# A Dafny model of the PSR-7 utilities and the SAPI response emitter

This project models the core of a PHP library of PSR-7 helpers, in Dafny. At
its centre is the response emitter. Before sending a response, it reconciles
`Content-Length` with `Content-Range` (sections 8.6 and 14.4 of RFC 9110). It
decides whether a body may be sent at all. It then writes the whole body, a
206 byte window, or a caller-truncated prefix, in chunks of the buffer size.
The SAPI emitter sits on top of it and fixes the order of the `header()` calls.
Around the emitter sit the pure helpers it and its users rely on:

- header-name and value normalisation, with `Set-Cookie` kept per cookie name;
- query strings: cleaning, building, parsing and merging;
- the URI reference kinds of section 4.2 of RFC 3986, and adding or removing a query key;
- `Set-Cookie` construction and rendering (section 4.1 of RFC 6265);
- `fopen` modes, whole-stream reads and bounded stream copies;
- message serialisation, Content-Length and Content-Type defaults, and body decompression;
- media types by extension;
- URI reconstruction from the server parameters, and `$_FILES` normalisation;
- the procedural twins in `message_helpers.php`.

How the PHP world is represented:

- **Messages.** A message is an immutable record: start line, protocol
  version, header fields and a body stream (module `HttpMessage`). Header
  fields are kept in insertion order under their lower-cased name.
- **Streams.** A stream is its bytes (one `char` per byte), a cursor, and
  whether it can read, write and seek.
- **Arrays.** PHP arrays are ordered sequences of key/value pairs (module
  `OrderedMap`). Keys follow PHP's rule that decimal strings become integers
  (module `PhpValues`). `empty`, `isset`, `is_numeric` and the `(int)` and
  `(string)` casts are written out.
- **Side effects.** The emitter returns what it would do instead of doing it:
  - the list of `header()` calls, each with its line, replace flag and response code;
  - the body chunks it would `echo`.
- **Environment.** What the SAPI reports before emitting (output-buffer level
  and length, `headers_sent`) is a record. The answer of `connection_status()`
  after the `k`-th write is the parameter `alive(k)`.
- **Parameters instead of foreign code.** The clock is the parameter `now`.
  Foreign routines are passed in as functions:
  - the cookie date format;
  - the IDN conversion;
  - the content sniffer;
  - the zlib, brotli and zstd decoders, and whether an extension is loaded.

Every fallible operation returns a `Result` whose error carries the exception
class and the library's message.

## Model

| member | source | states |
|---|---|---|
| ResponseEmitter.StatusLineForm | src/Emitter/ResponseEmitterAbstract.php:76-87 | the status line is "HTTP/version code reason"; with an empty reason phrase it ends at the code, with no trailing space |
| ResponseEmitter.FirstMatchLeftmost | src/Emitter/ResponseEmitterAbstract.php:158 | the unanchored pattern search returns the match at the leftmost position where the pattern matches, and it matches at no earlier position |
| ResponseEmitter.FirstMatchNone | src/Emitter/ResponseEmitterAbstract.php:158 | the search finds nothing only when the pattern matches at no position |
| ResponseEmitter.ParseContentRange | src/Emitter/ResponseEmitterAbstract.php:156-182 | a parsed range has first <= last; below the complete length its byte count is last - first + 1, past it the count is cut back to complete - first; at last == complete the source's rule (`AsWritten`) counts last - first + 1 and the corrected rule counts complete - first, and only the corrected count is never more than the bytes from first to the complete length |
| ResponseEmitter.ParseAsWrittenDiffers | src/Emitter/ResponseEmitterAbstract.php:169-178 | the source's cut-back (only when end > total) and the corrected one (end >= total) accept and reject the same headers and differ only when end == total, where the source counts one byte more |
| ResponseEmitter.ParseRendered | src/Emitter/ResponseEmitterAbstract.php:156-182 | the Content-Range value the emitter writes back, "bytes first-last/complete", parses back to the same first, last and complete length |
| ResponseEmitter.ParseRenderedStar | src/Emitter/ResponseEmitterAbstract.php:166 | with '*' as the complete length, the body size stands in for it |
| ResponseEmitter.MatchRendered | src/Emitter/ResponseEmitterAbstract.php:158 | any range of the form "unit first-last/complete" (unit made of letters) matches at its start and the captures are its parts |
| ResponseEmitter.OtherUnitRejected | src/Emitter/ResponseEmitterAbstract.php:160-162 | a unit other than "bytes" makes the range invalid |
| ResponseEmitter.AsWrittenOverstatesLength | src/Emitter/ResponseEmitterAbstract.php:174-176 | with a 26-byte body, "bytes 0-26/*" gets a byte count of 27 as written and 26 when corrected |
| ResponseEmitter.AsWrittenEmitterOverstates | src/Emitter/ResponseEmitterAbstract.php:124-176 | as written, a range whose last position equals the complete length, itself the body size, makes the emitter announce a Content-Length one byte more than the body bytes it sends |
| ResponseEmitter.NewEmitter | src/Emitter/ResponseEmitterAbstract.php:35-53 | a buffer size below 1 fails with "Buffer length must be greater than zero."; otherwise the buffer size, the body data and the reported size are kept and a seekable body is rewound to 0; with the rule `AsWritten` it fixes the headers as the source does |
| ResponseEmitter.Window | src/Emitter/ResponseEmitterAbstract.php:230-254 | the window of `length` bytes from `first` has exactly the bytes that exist in that range, and none when `length` is not positive |
| ResponseEmitter.EmitBodyRange | src/Emitter/ResponseEmitterAbstract.php:230-254 | fails with "body must be seekable", sending nothing, exactly when the body cannot seek; every chunk is non-empty and all but the last fit the buffer; the bytes sent are a prefix of the window and, while the connection stays open, the whole window |
| ResponseEmitter.EmitBuffers | src/Emitter/ResponseEmitterAbstract.php:239-248 | the buffer loop sends whole buffers from `lo` onward and stops once less than a buffer is wanted, the range is exhausted, or the connection has closed |
| ResponseEmitter.EmitWhole | src/Emitter/ResponseEmitterAbstract.php:216-223 | the whole-body loop sends chunks of at most the buffer size, a prefix of the rest of the stream, and all of it while the connection stays open |
| ResponseEmitter.EmitBody | src/Emitter/ResponseEmitterAbstract.php:196-225 | nothing without a body; fails exactly when part of the body is wanted and the stream cannot seek; the bytes sent are a prefix of the emitter's body window, the range it stored or the whole rest of the stream, and all of it while the connection stays open |
| ResponseEmitter.NoBodyNoLength | src/Emitter/ResponseEmitterAbstract.php:97-104 | without a body, Content-Length is removed, the status is kept and nothing is sent |
| ResponseEmitter.RangeHeaders | src/Emitter/ResponseEmitterAbstract.php:124-131 | a valid range keeps status 206, rewrites Content-Range to "bytes first-last/complete" and sets Content-Length to the byte count the parse gives under the same rule, which is also the length the emitter sends from the first position |
| ResponseEmitter.InvalidRangeHeaders | src/Emitter/ResponseEmitterAbstract.php:107-121 | an invalid range turns the response into 200 "OK" without Content-Range, with Content-Length the body size, and the whole body is sent |
| ResponseEmitter.PlainLengthHeaders | src/Emitter/ResponseEmitterAbstract.php:136-149 | without a range, a missing Content-Length is set to the body size; a present one is left as it is, and only a value below the body size limits what is sent, to that many bytes |
| ResponseEmitter.ContentLengthMatchesBody | src/Emitter/ResponseEmitterAbstract.php:96-254 | for a seekable body with a body to send and a range whose complete length is the body size, Content-Length is always set and the body sent on an open connection has exactly that many bytes, cut to the body size; as written this holds for every range whose last position is not the complete length, and with the corrected rule for every range |
| ResponseEmitter.RangeLengthAgrees | src/Emitter/ResponseEmitterAbstract.php:124-131 | the same for a valid range, with the same exception as written |
| ResponseEmitter.InvalidRangeLengthAgrees | src/Emitter/ResponseEmitterAbstract.php:107-121 | the same for an invalid range |
| ResponseEmitter.PlainLengthAgrees | src/Emitter/ResponseEmitterAbstract.php:136-149 | the same when there is no range and any Content-Length the caller set is not negative |
| ResponseEmitter.NegativeLengthKept | src/Emitter/ResponseEmitterAbstract.php:142-147 | a negative Content-Length set by the caller is below the body size, so it is kept as the header and becomes the custom length, and then no body byte is sent and the announced length disagrees with the bytes sent |
| SapiEmitter.HeaderInputNormalizes | src/Emitter/SapiEmitter.php:53 | normalising the header array of any message succeeds: every value is a list of strings |
| SapiEmitter.FieldCallsSpec | src/Emitter/SapiEmitter.php:55-62 | a call is among the field calls exactly when it is "Name: value" for a normalised field other than Set-Cookie |
| SapiEmitter.FieldCallsReplace | src/Emitter/SapiEmitter.php:61 | every field call replaces and carries no response code |
| SapiEmitter.EmitHeadersShape | src/Emitter/SapiEmitter.php:52-75 | the status line is the last call, replacing and with the status code; before it the replacing field calls come first, then one adding "Set-Cookie: " call per jar entry; no other call carries a code |
| SapiEmitter.EmittedField | src/Emitter/SapiEmitter.php:55-62 | every field other than Set-Cookie that the message carries is sent as "Name: v1, v2", replacing, with its values combined as `normalize` combines them, at a position where it is the only field call for that name |
| SapiEmitter.FieldCallNamesSpec | src/Emitter/SapiEmitter.php:55-62 | each field call is for a field of the map other than Set-Cookie, and its line starts with that field's name and ": " |
| SapiEmitter.FieldCallOnce | src/Emitter/SapiEmitter.php:55-62 | when names are unique, a field's call appears at exactly one position among the field calls, with the field's line |
| SapiEmitter.EmittedCookie | src/Emitter/SapiEmitter.php:64-70 | for each cookie name the last cookie line with that name is sent as "Set-Cookie: line", adding |
| SapiEmitter.CookiesOncePerName | src/Emitter/SapiEmitter.php:64-70 | each jar entry is filed under the cookie name of its line, so no two Set-Cookie calls share a cookie name |
| SapiEmitter.LastCookieName | src/HeaderUtil.php:47-61 | the last cookie line found for a name carries that name |
| SapiEmitter.Emit | src/Emitter/SapiEmitter.php:20-32 | given an emitter built by `NewEmitter`, fails, sending nothing, when output is buffered or headers were sent, with the source's messages; otherwise the header calls go out first, no header follows a body chunk, the result fails exactly when part of the body is wanted from a stream that cannot seek, and the body bytes are those of the emitter's window |
| SapiExample.SetHeadersExample | tests/Emitter/SapiEmitterTest.php:60-85 | for the test's 204 response with x-foo, x-bar and the cookies one, two and three, the calls are exactly "X-Foo: bar", "X-Bar: foo", "Set-Cookie: cookie=three", "Set-Cookie: cookie2=two" and the status line "HTTP/1.1 204 No Content" with code 204 |
| HeaderUtil.NormalizePartChar | src/HeaderUtil.php:148-150 | each character of a normalised part is the lower-cased character of the trimmed input at the same place, the first one upper-cased |
| HeaderUtil.NameHasNoBlanks | src/HeaderUtil.php:144-153 | a normalised header name holds no space, CR or LF |
| HeaderUtil.NormalizeHeaderNameIdempotent | src/HeaderUtil.php:144-153 | normalising a normalised name changes nothing |
| HeaderUtil.NormalizePartIdempotent | src/HeaderUtil.php:149 | `ucfirst(strtolower(trim(part)))` applied twice is applied once |
| HeaderUtil.PartsHaveNoDash | src/HeaderUtil.php:146-150 | the normalised pieces of the name split at '-' hold no '-', so joining and splitting again gives them back |
| HeaderUtil.TrimValue | src/HeaderUtil.php:127-134 | a value is accepted exactly when it is scalar or null, otherwise the error is "value is expected to be scalar or null" |
| HeaderUtil.TrimValueShape | src/HeaderUtil.php:133 | a trimmed value holds no CR or LF and neither starts nor ends with white space |
| HeaderUtil.TrimValues | src/HeaderUtil.php:125-137 | the list is accepted exactly when every value is scalar or null, and then each value is trimmed in place |
| HeaderUtil.NormalizeKV | src/HeaderUtil.php:91-112 | a string is split at its first ':' when it has one; an array gives its first pair when that pair's key is a string; anything else gives nothing |
| HeaderUtil.AddLineIsPut | src/HeaderUtil.php:73-80 | a value either leaves the fields alone or puts a line under the name |
| HeaderUtil.AddLineOther | src/HeaderUtil.php:73-80 | combining a value into one field leaves every other field alone |
| HeaderUtil.AddLineSame | src/HeaderUtil.php:73-80 | the field takes the value after ", ", is replaced when it was empty ("" or "0"), and keeps its line when the value is empty |
| HeaderUtil.StepOther | src/HeaderUtil.php:32-81 | processing one entry leaves every field it does not address alone |
| HeaderUtil.StepSame | src/HeaderUtil.php:62-81 | processing an entry of an ordinary field combines its trimmed values, joined by ", ", into that field |
| HeaderUtil.NormalizeFails | src/HeaderUtil.php:29-85 | normalisation fails exactly when some entry carries a value that is neither scalar nor null |
| HeaderUtil.NormalizeUnique | src/HeaderUtil.php:29-85 | every normalised name occurs once, and so does every cookie name in the Set-Cookie jar |
| HeaderUtil.PutCookiesLast | src/HeaderUtil.php:48-59 | in the jar, each cookie name holds the last line with that name |
| HeaderUtil.LastCookieAppend | src/HeaderUtil.php:48-59 | the last cookie of a name among two runs of lines is the later run's, if it has one |
| HeaderUtil.NormalizeCombines | src/HeaderUtil.php:62-81 | every field other than Set-Cookie holds the combination of the values addressed to it, in input order, whatever else lies between them |
| HeaderUtil.NormalizeCookies | src/HeaderUtil.php:45-61 | the jar maps each cookie name to the last cookie line with that name; the Set-Cookie field is present exactly when the input carries a cookie line, and it is a jar |
| QueryUtil.CleanValueFails | src/QueryUtil.php:56-70 | cleaning a value fails, with "invalid $bool_cast parameter value", exactly when the cast mode is not one of the four known modes and a boolean occurs somewhere in the value, at any depth |
| QueryUtil.CleanArrayFails | src/QueryUtil.php:56-92 | the same failure condition for the remaining entries of an array |
| QueryUtil.CleanArrayShape | src/QueryUtil.php:56-92 | every top-level value that survives cleaning has its strings trimmed; with `remove_empty` no null and no empty string survives, and "0" survives only as false cast in BOOLEANS_AS_INT_STRING mode; with a converting cast mode no boolean survives |
| QueryUtil.CleanValueShape | src/QueryUtil.php:58-89 | one cleaned value has the shape described for `CleanArrayShape` |
| QueryUtil.CleanValueSpec | src/QueryUtil.php:56-89 | a value is dropped exactly when `remove_empty` is set and it is null or a string that trims to "" or "0"; a kept string is its trimmed text; a boolean becomes itself, 0/1, "true"/"false" or "1"/"0" by cast mode; an array stays an array, even when empty; numbers and objects are kept as they are |
| QueryUtil.CleanArraySpec | src/QueryUtil.php:55-92 | cleaning an array keeps exactly the entries that are not dropped, in order and under their keys, each with its cleaned value |
| QueryUtil.CastBoolShape | src/QueryUtil.php:64-70 | a cast boolean is a bool only in BOOLEANS_AS_BOOL mode, and a cast string is already trimmed |
| QueryUtil.CleanKeepsKeys | src/QueryUtil.php:56-92 | without `remove_empty` every key survives cleaning, in its original order |
| QueryUtil.DefaultDecodeIsUrlDecode | src/QueryUtil.php:205 | the default decoder, `rawurldecode` after replacing '+' by a space, is the same as `urldecode` on every string |
| QueryUtil.CollectUnique | src/QueryUtil.php:208-228 | the array `parse` returns holds each key once |
| QueryUtil.AddPairKeys | src/QueryUtil.php:215-225 | adding a pair leaves the existing keys in place, appends the pair's key when it is new, and always holds that key afterwards |
| QueryUtil.CollectKeys | src/QueryUtil.php:210-228 | `parse` holds a key exactly when some pair of the query names that key |
| QueryUtil.ArrayMergeStringKeys | src/QueryUtil.php:175-185 | in `merge`, a string key given in the new parameters takes the new value, and every other key keeps the value parsed from the URI |
| QueryUtil.MergeShape | src/QueryUtil.php:175-185 | `merge` keeps the URI up to its first '?'; when new parameters are given a '?' and a query follow it, and with no parameters old or new the result is just that part |
| QueryUtil.RecursiveRawurlencodeFails | src/QueryUtil.php:238-249 | encoding fails with "$data is neither scalar nor null" exactly when an object occurs somewhere in the data |
| QueryUtil.RecursiveRawurlencodeRoundTrip | src/QueryUtil.php:238-249 | data without objects always encodes, and decoding every leaf gives back the data with each leaf read as a string, keeping keys, order and nesting |
| QueryUtil.EntryPairsRender | src/QueryUtil.php:148-162 | without encoding, the pairs `build` writes for one parsed entry are its reference rendering: a bare key for null, `key=value` for a string, one pair per value for a list |
| QueryUtil.ListSortedNoop | src/QueryUtil.php:153 | a list that `parse` collected in ascending order is left unchanged by `sort(..., SORT_STRING)` |
| QueryUtil.AllPairsRender | src/QueryUtil.php:146-164 | without encoding, the pairs `build` writes for a parsed array are the concatenation of its entries' reference renderings |
| QueryUtil.ExtendedRender | src/QueryUtil.php:218-225 | when a repeated key receives another value, the rendering of its entry gains exactly one pair, at the end |
| QueryUtil.CollectNewKey | src/QueryUtil.php:215-216 | a pair whose key is above every key collected so far is appended as a new entry, keeping the rendering invariant |
| QueryUtil.CollectSameKey | src/QueryUtil.php:218-225 | a pair repeating the last key extends that entry into a list, keeping the rendering invariant |
| QueryUtil.CollectBuildOrder | src/QueryUtil.php:208-228 | for pairs in build order, the collected array renders back exactly to those pairs and its keys ascend |
| QueryUtil.BuildCollect | src/QueryUtil.php:108-168 | without encoding, `build` of the array collected from pairs in build order writes those pairs back, joined by '&' |
| QueryUtil.RenderSplit | src/QueryUtil.php:210-213 | each pair of a query, split at its first '=' and rendered again, is unchanged |
| QueryUtil.BuildParseRoundTrip | tests/QueryUtilTest.php:144-148 | with NO_ENCODING, `build(parse(q))` gives back `q` for every query without a '?' at either end whose pairs are already in build order |
| QueryUtil.ParseUntrimmed | src/QueryUtil.php:195-199 | a query with no '?' at either end is split as it is, with nothing removed |
| UriUtil.Authority | src/UriUtil.php:71 | the authority is empty exactly when the URI has no host |
| UriUtil.IsDefaultPortIff | src/UriUtil.php:37-42 | a port counts as default exactly when it is absent or is the port listed for the URI's scheme |
| UriUtil.ReferenceKinds | src/UriUtil.php:59-94 | every URI is of exactly one of four kinds: absolute, network-path, absolute-path or relative-path reference |
| UriUtil.QueryParts | src/UriUtil.php:104-108 | the pieces of a non-empty query between '&' hold no '&'; an empty query has no pieces |
| UriUtil.WithoutQueryValue | src/UriUtil.php:101-111 | removing a key changes nothing but the query, and a URI with an empty query is returned as it is |
| UriUtil.WithoutQueryValueParts | src/UriUtil.php:101-111 | after removal, the query's pieces are the old pieces whose decoded name differs from the decoded key, in their old order and with repeats kept, as `array_filter` leaves them; so a piece is in the query exactly when it was in the old query and does not match |
| UriUtil.WithoutQueryValueIdempotent | src/UriUtil.php:101-111 | removing a key twice is the same as removing it once |
| UriUtil.EscapeSeparatorsSpec | src/UriUtil.php:131-132 | no '=' or '&' survives the separator escape, and the result is never shorter |
| UriUtil.EscapeSeparatorsIdentity | src/UriUtil.php:131-132 | the separator escape changes a string exactly when it holds '=' or '&' |
| UriUtil.DecodeEscaped | src/UriUtil.php:125-132 | `rawurldecode` cannot tell an escaped key from the original, so an escaped key still matches itself when pieces are compared |
| UriUtil.NewPartMatches | src/UriUtil.php:132-136 | the piece `withQueryValue` appends names the key it was added under and holds no '&' |
| UriUtil.KeptPartsSpec | src/UriUtil.php:108 | a piece is kept exactly when it is one of the input pieces and its name does not match the key |
| UriUtil.KeptPartsNoneMatch | src/UriUtil.php:108 | no kept piece matches the key |
| UriUtil.WithQueryValue | src/UriUtil.php:121-139 | setting a key changes nothing but the query |
| UriUtil.WithQueryValueSplit | src/UriUtil.php:121-139 | the new query splits into the kept old pieces, in order, followed by the new piece |
| UriUtil.WithQueryValueParts | src/UriUtil.php:121-139 | after `withQueryValue` the last piece is the new one and only it matches the key; the others are exactly the old pieces that do not match |
| UriUtil.WithoutAfterWith | src/UriUtil.php:101-139 | setting a key and then removing it is the same as only removing it |
| Cookies.WithNameAndValue | src/Cookie.php:83-98 | a successful `withNameAndValue` changes only the name and the value |
| Cookies.WithNameAndValueFails | src/Cookie.php:84-92 | the name is refused exactly when, trimmed, it is empty or holds a reserved character; an empty name gives "The cookie name cannot be empty." |
| Cookies.WithNameAndValueStores | src/Cookie.php:94-95 | an accepted cookie holds the trimmed name, and its value holds only unreserved characters and escapes and decodes back to the trimmed value |
| Cookies.WithExpiry | src/Cookie.php:104-135 | `withExpiry` changes only the expiry and `maxAge`; `maxAge` is never negative, and the expiry is cleared exactly for null |
| Cookies.WithExpiryMaxAge | src/Cookie.php:128-132 | `maxAge` is the number of seconds from now to the expiry, or zero when the expiry has passed |
| Cookies.WithExpiryStamp | src/Cookie.php:119-124 | an integer argument 0 sets the deletion time, one below now is an offset from now, and any other is an absolute timestamp |
| Cookies.WithExpiryCleared | src/Cookie.php:106-111 | `withExpiry(null)` clears the expiry and sets `maxAge` to 0 |
| Cookies.WithDomain | src/Cookie.php:140-158 | `withDomain` changes only the domain; null unsets it; otherwise it stores the trimmed, lower-cased domain, or its IDN conversion when punycode is true; it fails, with "Could not convert the given domain to IDN", exactly when that conversion fails |
| Cookies.WithDomainIdempotent | src/Cookie.php:140-158 | storing the stored domain again without punycode changes nothing |
| Cookies.WithPath | src/Cookie.php:163-176 | `withPath` changes only the path |
| Cookies.WithPathSpec | src/Cookie.php:165-171 | a stored path is never empty and has no surrounding white space; a path that is blank after trimming becomes "/" |
| Cookies.WithPathIdempotent | src/Cookie.php:163-176 | storing the stored path again changes nothing |
| Cookies.WithSecure | src/Cookie.php:181-185 | `withSecure` sets the Secure flag to its argument and changes nothing else |
| Cookies.WithHttpOnly | src/Cookie.php:190-194 | `withHttpOnly` sets the HttpOnly flag to its argument and changes nothing else |
| Cookies.WithSameSite | src/Cookie.php:199-212 | a successful `withSameSite` changes only SameSite |
| Cookies.WithSameSiteSpec | src/Cookie.php:201-206 | SameSite is accepted exactly when, trimmed and lower-cased, it is lax, strict or none, and that form is stored |
| Cookies.WithSameSiteCaseInsensitive | src/Cookie.php:202 | the SameSite check ignores letter case |
| Cookies.Prepared | src/Cookie.php:41-46 | before rendering, a cookie with an expiry and an empty value gets the deletion time as its expiry; any other cookie is left alone |
| Cookies.ToString | src/Cookie.php:38-77 | rendering fails exactly when SameSite is "none" and Secure is not set |
| Cookies.AttributesOrder | src/Cookie.php:39-74 | the rendered attributes start with name=value and come in the fixed order Expires, Domain, Path, Secure, HttpOnly, SameSite, each written exactly when its field is set |
| Cookies.ToStringStarts | src/Cookie.php:39 | a rendered cookie starts with "name=value" |
| Cookies.SecureRenders | src/Cookie.php:69-71 | with Secure set, every cookie renders |
| Cookies.EmptyValueExpires | src/Cookie.php:41-48 | a cookie with an empty value and an expiry renders as "Expires=" the deletion date "; Max-Age=0" right after its name |
| StreamUtil.ValidateMode | src/StreamUtil.php:90-98 | an accepted mode is non-empty and starts with one of the letters a, c, r, w, x |
| StreamUtil.ValidateModeSpec | src/StreamUtil.php:28-98 | a mode is accepted exactly when its first 15 characters match the fopen pattern; the result is that prefix; each of the five mode predicates fails exactly when validation does |
| StreamUtil.ModeLaws | src/StreamUtil.php:28-66 | a valid mode allows reading or writing; read-only excludes writing, write-only excludes reading, and read-write allows both |
| StreamUtil.ModeFlagsAnywhere | src/StreamUtil.php:72-77 | flags may come in any number after the letters ("rrrbbbb++" reads and writes), "rw" is read-only, "rb" reads but does not write, and "+r" and "" are refused |
| StreamUtil.GetContents | src/StreamUtil.php:105-130 | reading never changes the content and fails exactly when the read fails; a seekable stream is read in full and left rewound; an unseekable readable one yields the bytes from its cursor |
| StreamUtil.CopyToStream | src/StreamUtil.php:142-165 | copying fails exactly when the source is unreadable or the destination unwritable; otherwise every chunk holds 1 to 8192 bytes, the chunks together are the source's bytes from its cursor, the cursor advances by the count, the count never exceeds the limit, and when every read delivers in full the count is the limit or the bytes left, whichever is smaller |
| StreamUtil.CopyChunks | src/StreamUtil.php:148-162 | the read loop copies consecutive bytes of the source, at most the budget, in chunks of 1 to 8192 bytes |
| MessageUtil.GetContents | src/MessageUtil.php:31-39 | reading the body fails, with "invalid message content", exactly when the stream read fails; otherwise it yields what the stream helper reads |
| MessageUtil.ToString | src/MessageUtil.php:62-98 | rendering fails exactly when the body is appended and cannot be read |
| MessageUtil.ToStringShape | src/MessageUtil.php:88-95 | without the body the text is the start line followed by the header lines; with it, "\r\n\r\n" and the body content follow, and appending is the default |
| MessageUtil.ToStringHead | src/MessageUtil.php:62-98 | whatever the body, the text starts with the start line and the header lines |
| MessageUtil.ToStringRequest | src/MessageUtil.php:66-77 | a request's text starts "METHOD target HTTP/version", followed by a Host line with the URI's host exactly when the message has no Host header |
| MessageUtil.ToStringResponse | src/MessageUtil.php:79-90 | a response's text starts "HTTP/version code reason", and each field's line "name: values joined by ', '" follows the lines of the fields before it |
| MessageUtil.Decoded | src/MessageUtil.php:116-129 | a zlib decoder's failure turns into the unknown-encoding error; its success is passed on |
| MessageUtil.CallDecompress | src/MessageUtil.php:135-143 | a brotli or zstd body needs the extension, else "cannot decompress ... compressed message body"; with it, decoding succeeds exactly when the decoder does, and a decoder's `false` raises PHP's return-type TypeError with its full message |
| MessageUtil.Decompress | src/MessageUtil.php:109-130 | an unreadable body is an error; an empty or "identity" encoding yields the content unchanged; an encoding outside the known list is "unknown content-encoding value: " with the lower-cased name |
| MessageUtil.DecompressCaseInsensitive | src/MessageUtil.php:111 | the Content-Encoding value is matched regardless of case |
| MessageUtil.SetContentLengthHeader | src/MessageUtil.php:148-158 | setting the length never changes the start line, the version or the body |
| MessageUtil.SetContentLengthSpec | src/MessageUtil.php:151-157 | Content-Length is added exactly when it is missing and the body size is known and positive, and then reads back as that size; otherwise the message is unchanged |
| MessageUtil.SetContentLengthIdempotent | src/MessageUtil.php:148-158 | setting the length twice is setting it once |
| MessageUtil.SetContentTypeHeader | src/MessageUtil.php:166-182 | a successful call changes neither start line nor body and leaves a Content-Type header |
| MessageUtil.ChooseType | src/MessageUtil.php:171-179 | the type is taken from the first source that knows it: extension, then file name, then the content, which is read only when both fail |
| MessageUtil.SetContentType | src/MessageUtil.php:177-181 | with a chosen type, Content-Type reads back as that type; a failed choice is passed on |
| MessageUtil.SetContentTypePrecedence | src/MessageUtil.php:166-182 | the extension's type wins, then the file name's; otherwise an unreadable body gives "invalid message content", an unrecognised one "could not determine content type", and a recognised one its sniffed type |
| MimeTypeUtil.GetFromExtensionCaseInsensitive | src/MimeTypeUtil.php:133-135 | the extension lookup ignores letter case |
| MimeTypeUtil.JsonType | src/MimeTypeUtil.php:133-135 | "json", in any case, maps to application/json |
| MimeTypeUtil.PathExtension | src/MimeTypeUtil.php:141 | the extension `pathinfo` yields is taken from the base name, with trailing '/' dropped first, and holds no '.' and no '/' |
| MimeTypeUtil.BaseNameOf | src/MimeTypeUtil.php:141 | the base name is the last non-empty path segment, whatever run of '/' follows it |
| MimeTypeUtil.ExtensionUnderSlashes | src/MimeTypeUtil.php:141 | the extension of "dir/stem.ext" followed by any run of '/' is `ext` |
| MimeTypeUtil.TrailingSlashExtension | src/MimeTypeUtil.php:140-142 | "a/b.json/" has the extension "json" and the media type application/json |
| MimeTypeUtil.PathExtensionOf | src/MimeTypeUtil.php:141 | in a file name without a directory part, the extension is what follows the last '.' |
| MimeTypeUtil.GetFromFilenameNoExtension | src/MimeTypeUtil.php:140-142 | a file name whose base name holds no '.', the empty one among them, has no media type |
| MimeTypeUtil.GetFromFilenameEmpty | src/MimeTypeUtil.php:140-142 | the empty file name has no media type |
| ServerUtil.CreateUriFromGlobals | src/ServerUtil.php:82-126 | the rebuilt URI's scheme is http or https, and it has no user info and no fragment |
| ServerUtil.SchemeSpec | src/ServerUtil.php:88 | the scheme is https exactly when HTTPS is set, not empty ("" or "0") and not "off" |
| ServerUtil.HostSpec | src/ServerUtil.php:91-105 | the host is the Host header up to its first ':', else SERVER_NAME, else SERVER_ADDR |
| ServerUtil.PortSpec | src/ServerUtil.php:95-109 | a port after ':' in the Host header wins over SERVER_PORT, which is used otherwise |
| ServerUtil.QuerySpec | src/ServerUtil.php:111-123 | path and query come from the request URI split at '?'; QUERY_STRING is used only when the request URI holds no '?' |
| ServerUtil.CreateUriRoundTrip | src/ServerUtil.php:82-126 | a Host header "host:port" and a request URI "path?query" are rebuilt into exactly that host, port, path and query |
| ServerUtil.FromSpec | src/ServerUtil.php:171-181 | a spec with a string temporary name becomes one uploaded file with the size and error cast to integers; a temporary name that is neither a string nor an array is a type error |
| ServerUtil.NestedFrom | src/ServerUtil.php:203-219 | a nested spec yields one entry per key of the temporary names, in their order |
| ServerUtil.NestedSpec | src/ServerUtil.php:203-219 | temporary names that are all strings yield, per key, the file built from the name, type, size and error under that key |
| ServerUtil.NormalizeFrom | src/ServerUtil.php:137-159 | normalising yields one entry per input entry, under the same key |
| ServerUtil.NormalizeFilesEntry | src/ServerUtil.php:142-154 | an uploaded file passes through unchanged, and a value that is neither a file nor an array makes the whole call fail |
| ServerUtil.NormalizeFilesInvalid | src/ServerUtil.php:152-154 | a plain string entry is refused with "Invalid value in files specification" |
| MessageHelpers.RRawurlencode | src/message_helpers.php:132-143 | `r_rawurlencode` fails, with a type error, exactly when an object occurs in the data, and otherwise equals `recursiveRawurlencode` |
| MessageHelpers.MessageToStringAgrees | src/message_helpers.php:182-205 | `message_to_string` and `MessageUtil::toString` with the body give the same text whenever the request line needs no trimming |
| MessageHelpers.MessageToStringEmptyTarget | src/message_helpers.php:186 | with an empty request target the trimmed request line is "METHOD HTTP/version", with no stray space |
| MessageHelpers.DecompressContent | src/message_helpers.php:215-239 | `decompress_content` fails exactly for "br" without the brotli extension, and passes every encoding it does not know through unchanged |
| MessageHelpers.DecompressVersions | src/message_helpers.php:215-239 | against `MessageUtil::decompress`: both return the body for identity and agree on a successful gzip decode; an unknown encoding passes through here but is an error there, and a failed gzip decode gives "" here but an error there |
| UrlCodec.RawUrlRoundTrip | src/Cookie.php:95 | `rawurldecode` gives back every string `rawurlencode` encoded |
| UrlCodec.RawUrlEncodeAlphabet | src/Cookie.php:95 | `rawurlencode` writes only unreserved characters and escapes |
| Sorting.SortPerm | src/QueryUtil.php:144 | the sort `build` applies to the parameters is a permutation of them |
| Sorting.SortSorted | src/QueryUtil.php:144 | after sorting, the parameter names ascend by byte value |
| HttpMessage.HeaderCaseInsensitive | src/MessageUtil.php:74 | header names are compared without regard to case |
| Str.JoinSplit | src/HeaderUtil.php:146-150 | joining the pieces of `explode` with the delimiter gives back the input |
| Str.IntCastExponent | src/Emitter/ResponseEmitterAbstract.php:144 | `(int)` of "m" "e" "x" is m times ten to the x, so "1e3" is 1000 |
| Str.IntCastNegativeExponent | src/Emitter/ResponseEmitterAbstract.php:144 | `(int)` of "m" "e-" "x" is m divided by ten to the x, rounded toward zero, so "5e-1" is 0 |
| Str.IntCastFraction | src/Emitter/ResponseEmitterAbstract.php:144 | `(int)` of "m.digits" drops the fraction and is m |

## Left out

- The real side effects of the emitters: `header()`, `echo`, `flush()`, `connection_status()`, `ob_get_level`, `ob_get_length` and `headers_sent`. They are recorded calls, returned chunks and parameters.
- `UriUtil::parseUrl` and `parseUrl` in `src/message_helpers.php`. They rest on PHP's `parse_url` and Unicode regular-expression callbacks. `QueryUtil.Merge` takes the query component that `parseUrl` would extract as a parameter.
- The decoders behind `decompress` and `decompress_content` (`gzdecode`, `gzuncompress`, `gzinflate`, `brotli_uncompress`, `zstd_uncompress`) are foreign libraries. They are the parameter `codec`; `extension_loaded` is the parameter `loaded`.
- `MessageUtil::decodeJSON`, `MessageUtil::decodeXML`, `get_json` and `get_xml`: JSON and XML parsing is outside the model.
- `MimeTypeUtil::getFromContent` relies on `finfo`. Content sniffing is the parameter `sniff` of `MessageUtil.SetContentTypeHeader`.
- The full `MIMETYPES` table is kept, but `pathinfo` is modelled only for what `getFromFilename` uses: the text after the last '.' of the base name. The base name follows `basename` on a POSIX path: trailing '/' are dropped, then the last segment is kept. Windows separators and locale-dependent multibyte handling are not modelled.
- Cookie dates: the `DateTimeInterface::COOKIE` format is the parameter `formatDate`.
  - A `DateTimeInterface` expiry is its timestamp, and a `DateInterval` is the number of seconds it spans.
  - The clock is the parameter `now`.
- `Cookies.WithDomain`: `idn_to_ascii` is the parameter `toAscii`. `mb_strtolower` is modelled as ASCII lower-casing, so non-ASCII letters keep their case.
- `Cookies.ToString`: PHP resets the expiry of an empty-valued cookie on the object itself while rendering. The model renders the reset cookie but does not return it.
- `StreamUtil::tryFopen` and `StreamUtil::tryGetContents`: file-system access and PHP error-handler juggling.
- `StreamUtil.CopyToStream` takes streams whose cursor lies within their content, as every stream the model builds does. A read delivers at most `delivered(k)` bytes; a destination write always succeeds.
- `ServerUtil::createServerRequestFromGlobals` needs the superglobals, `getallheaders` and the PSR-17 factories. `ServerUtil::createStreamFromFile` needs `is_file`. An uploaded file is recorded by the arguments handed to the file factory, its stream by the temporary file name. The constructor only stores the factories.
- `src/Client/*` (URLExtractor, LoggingClient, EchoClient) are thin wrappers over a network transport.
- `ResponseEmitterInterface` is a declaration only.
- PSR-7 implementations and their own normalisations (default-port elision, URI string forms) are reduced to the records above.
- `ResponseEmitter.ParseContentRange`: positions are unbounded integers. PHP's `intval` saturates at 9223372036854775807, which the model does not reproduce.
- `Str.IntCast`: results are unbounded integers, where PHP keeps them within the 64-bit range. A fraction or exponent is read as an exact decimal, where PHP first rounds it to a binary64 double, so a string such as "0.99999999999999999999" gives 0 here and 1 in PHP.
- `ResponseEmitter.ContentLengthMatchesBody` and `ResponseEmitter.RangeLengthAgrees`: for the source's rule they exclude a range whose last position equals the complete length, because there the source announces one byte more than it sends (`ResponseEmitter.AsWrittenEmitterOverstates`).
- `ResponseEmitter.ContentLengthMatchesBody` and `ResponseEmitter.PlainLengthAgrees` also exclude a negative Content-Length set by the caller. The source keeps such a header and sends no body byte, so the two lengths disagree there (`ResponseEmitter.NegativeLengthKept`).
- `ResponseEmitter.EmitBody`, `ResponseEmitter.EmitBodyRange` and `ResponseEmitter.EmitWhole` read an idealised stream: a read returns every byte asked for that exists, and `eof()` holds exactly when the cursor is at the end. A stream that returns short reads, or a connection that aborts mid-write without `connection_status()` reporting it, is not modelled.
- `MessageHelpers.MessageToStringAgrees` covers only requests whose "METHOD target" needs no trimming. `MessageHelpers.MessageToStringEmptyTarget` covers the empty target.
- `QueryUtil.BuildParseRoundTrip` is stated for NO_ENCODING and for queries whose pairs are already in `build`'s order, as in the library's own round-trip test. With encoding, the round trip depends on the encoder and is covered only by `UrlCodec.RawUrlRoundTrip` on single strings.

## Findings

| source | as written | input that shows it | evidently intended | confidence | as-written member | corrected member |
|---|---|---|---|---|---|---|
| src/Emitter/ResponseEmitterAbstract.php:174-176 | the byte count is cut back to `total - start` only when `end > total`, so `end == total` counts `total - start + 1` bytes | "bytes 0-26/*" with a 26-byte body announces Content-Length 27, one more byte than the body holds from position 0 | cut back whenever `end >= total`, since the last position of a complete length `total` is `total - 1` (section 14.4 of RFC 9110) | not executed | ResponseEmitter.ParseContentRange with the rule AsWritten, shown by ResponseEmitter.AsWrittenOverstatesLength and ResponseEmitter.AsWrittenEmitterOverstates | ResponseEmitter.ParseContentRange with the rule Corrected, with ResponseEmitter.ContentLengthMatchesBody |

Both readings are one definition, `ResponseEmitter.ParseContentRange`, whose
parameter `rule` picks the cut-back. `ResponseEmitter.NewEmitter` takes the
same parameter. With `AsWritten` it is the source's emitter, and the
example in `SapiExample` uses that rule. With `Corrected` it is the emitter
that the evidently intended rule gives.
`ResponseEmitter.ParseAsWrittenDiffers` shows that the two readings accept the
same headers and differ only when `end == total`.
