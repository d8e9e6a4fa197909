/**
 * `fopen` mode strings and two stream routines: reading a whole stream and
 * copying one stream into another in bounded chunks.
 *
 * A stream is its content, a cursor and its capabilities; a string stands for
 * bytes, one `char` per byte.
 */
module StreamUtil {
  import opened Wrappers
  import opened Str

  // ---------------------------------------------------------------------------
  // fopen modes

  /** The characters a mode must start with. */
  const MODE_LETTERS: set<char> := {'a', 'c', 'r', 'w', 'x'}

  /** The characters allowed after the leading letters: b e f h t + and the digits. */
  const MODE_FLAGS: set<char> := {'b', 'e', 'f', 'h', 't', '+', '0', '1', '2', '3', '4', '5', '6', '7', '8', '9'}

  /** The letters of a mode that may only write. */
  const WRITE_LETTERS: set<char> := {'a', 'c', 'w', 'x'}

  /** `[acrwx]+[befht+\d]*` matches the whole of `m`. */
  predicate IsModeText(m: string) {
    |m| > 0 && m[0] in MODE_LETTERS
    && forall i :: SkipSet(m, 0, MODE_LETTERS) <= i < |m| ==> m[i] in MODE_FLAGS
  }

  /** `/^[acrwx]+[befht+\d]*$/`: as PCRE reads `$`, a single final newline may follow the match. */
  predicate MatchesModePattern(m: string) {
    IsModeText(m) || (|m| > 0 && m[|m| - 1] == '\n' && IsModeText(m[..|m| - 1]))
  }

  /** `validateMode`: the first 15 characters, provided they form a mode. */
  function ValidateMode(mode: string): (r: Result<string>)
    ensures r.Ok? ==> |r.value| > 0 && r.value[0] in MODE_LETTERS
  {
    var m := if |mode| > 15 then mode[..15] else mode;
    if MatchesModePattern(m) then Ok(m) else Err(InvalidArgument("invalid fopen mode: " + m))
  }

  function ModeAllowsReadWrite(mode: string): Result<bool> {
    var m :- ValidateMode(mode);
    Ok('+' in m)
  }

  function ModeAllowsReadOnly(mode: string): Result<bool> {
    var m :- ValidateMode(mode);
    Ok(m[0] == 'r' && '+' !in m)
  }

  function ModeAllowsWriteOnly(mode: string): Result<bool> {
    var m :- ValidateMode(mode);
    Ok(m[0] in WRITE_LETTERS && '+' !in m)
  }

  function ModeAllowsRead(mode: string): Result<bool> {
    var m :- ValidateMode(mode);
    Ok(m[0] == 'r' || (m[0] in WRITE_LETTERS && '+' in m))
  }

  function ModeAllowsWrite(mode: string): Result<bool> {
    var m :- ValidateMode(mode);
    Ok(m[0] in WRITE_LETTERS || (m[0] == 'r' && '+' in m))
  }

  /** Only the first 15 characters count, and they must match the pattern; then every predicate answers. */
  lemma ValidateModeSpec(mode: string)
    ensures var r := ValidateMode(mode);
      && (r.Ok? <==> MatchesModePattern(mode[..if |mode| > 15 then 15 else |mode|]))
      && (r.Ok? ==> |r.value| <= 15 && r.value == mode[..|r.value|])
      && (r.Err? <==> ModeAllowsRead(mode).Err?)
      && (r.Err? <==> ModeAllowsWrite(mode).Err?)
      && (r.Err? <==> ModeAllowsReadOnly(mode).Err?)
      && (r.Err? <==> ModeAllowsWriteOnly(mode).Err?)
      && (r.Err? <==> ModeAllowsReadWrite(mode).Err?)
  {
    assert mode[..|mode|] == mode;
  }

  /** A valid mode allows reading or writing; "only" excludes the other; read-write is both. */
  lemma ModeLaws(mode: string)
    requires ValidateMode(mode).Ok?
    ensures ModeAllowsRead(mode).value || ModeAllowsWrite(mode).value
    ensures ModeAllowsReadOnly(mode).value ==> ModeAllowsRead(mode).value && !ModeAllowsWrite(mode).value
    ensures ModeAllowsWriteOnly(mode).value ==> ModeAllowsWrite(mode).value && !ModeAllowsRead(mode).value
    ensures ModeAllowsReadWrite(mode).value <==> ModeAllowsRead(mode).value && ModeAllowsWrite(mode).value
    ensures ModeAllowsReadOnly(mode).value || ModeAllowsWriteOnly(mode).value || ModeAllowsReadWrite(mode).value
  {
  }

  /** The flags may appear anywhere after the letters, in any number: "rrrbbbb++" reads and writes. */
  lemma ModeFlagsAnywhere()
    ensures ModeAllowsReadWrite("rrrbbbb++") == Ok(true)
    ensures ModeAllowsReadOnly("rw") == Ok(true)
    ensures ModeAllowsRead("rb") == Ok(true) && ModeAllowsWrite("rb") == Ok(false)
    ensures ValidateMode("+r").Err? && ValidateMode("").Err?
  {
    assert SkipSet("rrrbbbb++", 0, MODE_LETTERS) == 3;
    assert SkipSet("rb", 0, MODE_LETTERS) == 1;
  }

  // ---------------------------------------------------------------------------
  // streams

  datatype Stream = Stream(
    data: string,
    pos: nat,
    size: Option<int>,
    readable: bool,
    writable: bool,
    seekable: bool)

  /** `getContents`: the stream rewound when it can be, read in full, and rewound again; `None` when reading fails. */
  function GetContents(s: Stream, readFails: bool): (r: (Option<string>, Stream))
    ensures r.1.data == s.data
    ensures s.pos <= |s.data| ==> r.1.pos <= |s.data|
    ensures r.0.None? <==> readFails
    ensures !readFails && s.seekable ==> r.0 == Some(s.data) && r.1.pos == 0
    ensures !readFails && !s.readable ==> r.0 == Some(s.data)
    ensures !readFails && s.readable && !s.seekable ==> r.0 == Some(Rest(s)) && r.1.pos == |s.data|
  {
    var s1 := if s.seekable then s.(pos := 0) else s;
    if readFails then (None, s1)
    else if !s1.readable then
      // a stream that cannot be read is cast to string, which gives the whole content
      (Some(s1.data), s1)
    else if s1.seekable then (Some(Rest(s1)), s1)
    else (Some(Rest(s1)), s1.(pos := |s1.data|))
  }

  /** The bytes from the cursor to the end; none when the cursor is past the end. */
  function Rest(s: Stream): (r: string)
    ensures s.pos <= |s.data| ==> r == s.data[s.pos..]
    ensures s.pos >= |s.data| ==> r == ""
  {
    s.data[Min(s.pos, |s.data|)..]
  }

  const CHUNK_SIZE: nat := 8192

  function Flatten(chunks: seq<string>): string {
    if |chunks| == 0 then "" else Flatten(chunks[..|chunks| - 1]) + chunks[|chunks| - 1]
  }

  /**
   * `copyToStream`: reads from the source's cursor until `maxLength` bytes
   * (by default the size minus the cursor) are copied, the source is at its
   * end, or a read returns nothing; each read asks for at most 8192 bytes, and
   * the `k`-th read returns at most `delivered(k)` of them.  Returns the byte
   * count, the source afterwards and the chunks written, in order.
   */
  method CopyToStream(source: Stream, destination: Stream, maxLength: Option<int>, delivered: nat -> nat)
    returns (r: Result<nat>, src: Stream, chunks: seq<string>)
    requires source.pos <= |source.data|
    ensures r.Err? <==> !source.readable || !destination.writable
    ensures r.Err? ==> src == source && chunks == []
    ensures forall k :: 0 <= k < |chunks| ==> 0 < |chunks[k]| <= CHUNK_SIZE
    ensures r.Ok? ==> src == source.(pos := source.pos + r.value) && source.pos + r.value <= |source.data|
    ensures r.Ok? ==> Flatten(chunks) == source.data[source.pos..source.pos + r.value]
    ensures r.Ok? ==> var budget := maxLength.GetOr(source.size.GetOr(0) - source.pos);
      r.value <= (if budget < 0 then 0 else budget)
    ensures r.Ok? && (forall k :: delivered(k) >= CHUNK_SIZE) ==>
      var budget := maxLength.GetOr(source.size.GetOr(0) - source.pos);
      r.value == if budget <= 0 then 0 else Min(budget, |source.data| - source.pos)
  {
    if !source.readable || !destination.writable {
      return Err(Runtime("$source must be readable and $destination must be writable")), source, [];
    }
    var budget := maxLength.GetOr(source.size.GetOr(0) - source.pos);
    var n;
    n, chunks := CopyChunks(source.data, source.pos, budget, delivered);
    r := Ok(n);
    src := source.(pos := source.pos + n);
  }

  /** The read loop of `copyToStream`: chunks of `data` from `start` on, `budget` bytes at most. */
  method CopyChunks(data: string, start: nat, budget: int, delivered: nat -> nat) returns (n: nat, chunks: seq<string>)
    requires start <= |data|
    ensures start + n <= |data|
    ensures n <= (if budget < 0 then 0 else budget)
    ensures forall k :: 0 <= k < |chunks| ==> 0 < |chunks[k]| <= CHUNK_SIZE
    ensures Flatten(chunks) == data[start..start + n]
    ensures (forall k :: delivered(k) >= CHUNK_SIZE) ==> n == if budget <= 0 then 0 else Min(budget, |data| - start)
  {
    var remaining := budget;
    var pos := start;
    var readCount: nat := 0;
    var stalled := false;
    chunks := [];
    while remaining > 0 && pos < |data| && !stalled
      invariant start <= pos <= |data|
      invariant remaining == budget - (pos - start)
      invariant budget > 0 ==> remaining >= 0
      invariant budget <= 0 ==> pos == start
      invariant stalled ==> readCount > 0 && delivered(readCount - 1) == 0
      invariant forall k :: 0 <= k < |chunks| ==> 0 < |chunks[k]| <= CHUNK_SIZE
      invariant Flatten(chunks) == data[start..pos]
      decreases |data| - pos, if stalled then 0 else 1
    {
      var want := Min(CHUNK_SIZE, remaining);
      var length := Min(Min(want, delivered(readCount)), |data| - pos);
      readCount := readCount + 1;
      if length == 0 {
        // an empty read ends the copy
        stalled := true;
      } else {
        FlattenExtend(chunks, data, start, pos, pos + length);
        chunks := chunks + [data[pos..pos + length]];
        remaining := remaining - length;
        pos := pos + length;
      }
    }
    n := pos - start;
  }

  /** Appending the next slice of the data extends a flattened prefix. */
  lemma FlattenExtend(chunks: seq<string>, data: string, a: nat, b: nat, c: nat)
    requires a <= b <= c <= |data|
    requires Flatten(chunks) == data[a..b]
    ensures Flatten(chunks + [data[b..c]]) == data[a..c]
  {
    assert (chunks + [data[b..c]])[..|chunks|] == chunks;
    assert data[a..c] == data[a..b] + data[b..c];
  }

  function Min(a: int, b: int): int {
    if a < b then a else b
  }
}
