/**
 * The part of a response emitter that does not depend on the server API
 * (src/Emitter/ResponseEmitterAbstract.php): fixing the Content-Length and
 * Content-Range headers of a response before it is sent, and writing its
 * body whole or in part, in chunks of at most the buffer size.
 *
 * The body is a stream read from its cursor. A read returns the bytes asked
 * for, fewer only at the end of the data, and the stream is at its end once
 * the cursor is. After each write the emitter asks whether the connection is
 * still open; the answer to the `k`-th question is `alive(k)`.
 */
module ResponseEmitter {
  import opened Wrappers
  import opened Str
  import opened HttpMessage
  import StreamUtil

  /** A constructed emitter: the response as adjusted, and the part of the body to send. */
  datatype Emitter = Emitter(
    response: Response,
    bufferSize: int,
    hasCustomLength: bool,
    hasContentRange: bool,
    rangeStart: nat,
    rangeLength: int)

  // ---------------------------------------------------------------------------
  // status

  /** Informational responses and 204, 205 and 304 never carry a body. */
  predicate BodylessStatus(status: int) {
    status < 200 || status in {204, 205, 304}
  }

  /** `hasBody`: a status that allows a body, and a readable stream that reports a positive size. */
  predicate HasBody(r: Response) {
    !BodylessStatus(Status(r)) && r.body.readable && r.body.size.Some? && r.body.size.value > 0
  }

  /** `getStatusLine`: "HTTP/<version> <code> <reason>", trimmed. */
  function StatusLineText(r: Response): string {
    Trim("HTTP/" + r.version + " " + IntToString(Status(r)) + " " + r.start.reason)
  }

  /**
   * An empty reason phrase leaves no trailing space: the line ends with the
   * code. A reason phrase that does not end in white space is kept whole.
   */
  lemma StatusLineForm(r: Response)
    ensures r.start.reason == "" ==> StatusLineText(r) == "HTTP/" + r.version + " " + IntToString(Status(r))
    ensures r.start.reason != "" && r.start.reason[|r.start.reason| - 1] !in TRIM_CHARS ==>
      StatusLineText(r) == "HTTP/" + r.version + " " + IntToString(Status(r)) + " " + r.start.reason
  {
    var head := "HTTP/" + r.version + " " + IntToString(Status(r));
    var code := IntToString(Status(r));
    var d := NatToString(if Status(r) < 0 then -Status(r) else Status(r));
    assert code[|code| - 1] == d[|d| - 1];
    assert head[|head| - 1] == code[|code| - 1];
    assert IsDigit(d[|d| - 1]);
    if r.start.reason == "" {
      assert head + " " + r.start.reason == head + " ";
      assert (head + " ")[..|head|] == head;
      TrimKeeps(head + " ", |head|);
    } else if r.start.reason[|r.start.reason| - 1] !in TRIM_CHARS {
      var line := head + " " + r.start.reason;
      assert line[..|line|] == line;
      TrimKeeps(line, |line|);
    }
  }

  /** Trimming a string that starts with 'H' and whose `n`-th character is its last non-blank one keeps `s[..n]`. */
  lemma TrimKeeps(s: string, n: nat)
    requires 0 < n <= |s| && s[0] == 'H' && s[n - 1] !in TRIM_CHARS
    requires forall i :: n <= i < |s| ==> s[i] in TRIM_CHARS
    ensures Trim(s) == s[..n]
  {
    assert TrimLeft(s, TRIM_CHARS) == s;
    TrimRightKeeps(s, n);
  }

  lemma {:induction false} TrimRightKeeps(s: string, n: nat)
    requires 0 < n <= |s| && s[n - 1] !in TRIM_CHARS
    requires forall i :: n <= i < |s| ==> s[i] in TRIM_CHARS
    ensures TrimRight(s, TRIM_CHARS) == s[..n]
    decreases |s|
  {
    if n < |s| {
      var t := s[..|s| - 1];
      TrimRightKeeps(t, n);
      assert t[..n] == s[..n];
    } else {
      assert s[..n] == s;
    }
  }

  // ---------------------------------------------------------------------------
  // parsing Content-Range

  predicate IsLetter(c: char) {
    'a' <= c <= 'z' || 'A' <= c <= 'Z'
  }

  /** End of the run of ASCII letters that starts at `i`. */
  function SkipLetters(s: string, i: nat): (j: nat)
    requires i <= |s|
    ensures i <= j <= |s|
    ensures forall k :: i <= k < j ==> IsLetter(s[k])
    ensures j < |s| ==> !IsLetter(s[j])
    decreases |s| - i
  {
    if i < |s| && IsLetter(s[i]) then SkipLetters(s, i + 1) else i
  }

  /** What `/(?P<unit>[a-z]+)\s+(?P<start>\d+)-(?P<end>\d+)\/(?P<total>\d+|\*)/i` captures; `None` stands for '*'. */
  datatype RangeMatch = RangeMatch(unit: string, first: nat, last: nat, complete: Option<nat>)

  /** Every character of `s[i..j]` is a decimal digit. */
  predicate DigitsBetween(s: string, i: nat, j: nat)
    requires i <= j <= |s|
  {
    forall k :: i <= k < j ==> IsDigit(s[k])
  }

  /** End of the run of decimal digits that starts at `i`. */
  function DigitEnd(s: string, i: nat): (j: nat)
    requires i <= |s|
    ensures i <= j <= |s| && DigitsBetween(s, i, j)
    ensures j < |s| ==> !IsDigit(s[j])
    decreases |s| - i
  {
    if i < |s| && IsDigit(s[i]) then DigitEnd(s, i + 1) else i
  }

  /** The value of the decimal digits `s[i..j]`. */
  function RunValue(s: string, i: nat, j: nat): nat
    requires i <= j <= |s| && DigitsBetween(s, i, j)
    decreases j - i
  {
    if j == i then 0 else RunValue(s, i, j - 1) * 10 + DigitValue(s[j - 1])
  }

  /** `(?P<start>\d+)-(?P<end>\d+)\/(?P<total>\d+|\*)` from position `i`. */
  function Positions(s: string, i: nat): Option<(nat, nat, Option<nat>)>
    requires i <= |s|
  {
    var j := DigitEnd(s, i);
    if j == i || j == |s| || s[j] != '-' then None
    else
      var k := DigitEnd(s, j + 1);
      if k == j + 1 || k == |s| || s[k] != '/' then None
      else
        var l := DigitEnd(s, k + 1);
        if l > k + 1 then Some((RunValue(s, i, j), RunValue(s, j + 1, k), Some(RunValue(s, k + 1, l))))
        else if l < |s| && s[l] == '*' then Some((RunValue(s, i, j), RunValue(s, j + 1, k), None))
        else None
  }

  /**
   * The pattern matched from position `p`. Each repetition is greedy and is
   * followed by a character it cannot consume, so backtracking never yields a
   * different match: the captures are the maximal runs.
   */
  function MatchAt(s: string, p: nat): Option<RangeMatch>
    requires p <= |s|
  {
    var a := SkipLetters(s, p);
    var b := SkipSet(s, a, SPACE_CHARS);
    if a == p || b == a then None
    else
      var n :- Positions(s, b);
      Some(RangeMatch(s[p..a], n.0, n.1, n.2))
  }

  /** `preg_match` of the unanchored pattern: the match that starts leftmost, at `p` or later. */
  function FirstMatch(s: string, p: nat): Option<RangeMatch>
    requires p <= |s|
    decreases |s| - p
  {
    if MatchAt(s, p).Some? then MatchAt(s, p)
    else if p == |s| then None
    else FirstMatch(s, p + 1)
  }

  /** A match found is the one at the leftmost position where the pattern matches. */
  lemma {:induction false} FirstMatchLeftmost(s: string, p: nat) returns (q: nat)
    requires p <= |s| && FirstMatch(s, p).Some?
    ensures p <= q <= |s| && FirstMatch(s, p) == MatchAt(s, q)
    ensures forall k :: p <= k < q ==> MatchAt(s, k).None?
    decreases |s| - p
  {
    if MatchAt(s, p).Some? {
      q := p;
    } else {
      assert p < |s| && FirstMatch(s, p) == FirstMatch(s, p + 1);
      q := FirstMatchLeftmost(s, p + 1);
    }
  }

  /** No match is found only when the pattern matches nowhere. */
  lemma {:induction false} FirstMatchNone(s: string, p: nat)
    requires p <= |s| && FirstMatch(s, p).None?
    ensures forall k :: p <= k <= |s| ==> MatchAt(s, k).None?
    decreases |s| - p
  {
    if p < |s| {
      FirstMatchNone(s, p + 1);
    }
  }

  /** A range as `parseContentRange` returns it: first and last position, complete length, byte count. */
  datatype ContentRange = ContentRange(first: nat, last: nat, complete: int, length: int)

  /**
   * The positions a "bytes" range names, '*' standing for the body size;
   * none when the pattern does not match, the unit (compared without case)
   * is not "bytes", or the last position is before the first.
   */
  function RangeBounds(header: string, size: int): Option<(nat, nat, int)> {
    var m :- FirstMatch(header, 0);
    if Lower(m.unit) != "bytes" || m.last < m.first then None
    else Some((m.first, m.last, if m.complete.Some? then m.complete.value else size))
  }

  /**
   * Which cut-back the byte count follows when the last position reaches
   * the complete length: the source cuts back only a last position past
   * it; the corrected rule also cuts back one equal to it, since the last
   * byte of a complete length `n` is at position `n - 1` (section 14.4 of
   * RFC 9110).
   */
  datatype CutBack = AsWritten | Corrected

  /** The bytes a range covers: `last - first + 1`, or up to the complete length once `last` reaches past it. */
  function RangeLength(rule: CutBack, first: nat, last: nat, complete: int): int {
    var cut := if rule.AsWritten? then last > complete else last >= complete;
    if cut then complete - first else last - first + 1
  }

  /** `parseContentRange`, with the byte count cut back as `rule` says; `AsWritten` is the source. */
  function ParseContentRange(header: string, size: int, rule: CutBack): (r: Option<ContentRange>)
    ensures r.Some? ==> r.value.first <= r.value.last
    ensures r.Some? && r.value.last < r.value.complete ==> r.value.length == r.value.last - r.value.first + 1
    ensures r.Some? && r.value.last > r.value.complete ==> r.value.length == r.value.complete - r.value.first
    ensures r.Some? && r.value.last == r.value.complete ==>
      r.value.length == r.value.last - r.value.first + (if rule.AsWritten? then 1 else 0)
    ensures r.Some? && rule.Corrected? && r.value.first <= r.value.complete ==>
      0 <= r.value.length <= r.value.complete - r.value.first
      && r.value.length <= r.value.last - r.value.first + 1
  {
    match RangeBounds(header, size)
    case None => None
    case Some((first, last, complete)) => Some(ContentRange(first, last, complete, RangeLength(rule, first, last, complete)))
  }

  /** The two readings differ only when the last position equals the complete length. */
  lemma ParseAsWrittenDiffers(header: string, size: int)
    ensures var w, r := ParseContentRange(header, size, AsWritten), ParseContentRange(header, size, Corrected);
      && (r.None? <==> w.None?)
      && (r.Some? ==> r.value.(length := w.value.length) == w.value)
      && (r.Some? && r.value.last != r.value.complete ==> r == w)
      && (r.Some? && r.value.last == r.value.complete ==> w.value.length == r.value.length + 1)
  {
  }

  /** The text of a complete length: its digits, or '*'. */
  function CompleteText(c: Option<nat>): string {
    if c.Some? then NatToString(c.value) else "*"
  }

  /** "<unit> <first>-<last>/<complete>", the form a Content-Range value takes. */
  function RangeText(unit: string, first: nat, last: nat, complete: Option<nat>): string {
    unit + " " + NatToString(first) + "-" + NatToString(last) + "/" + CompleteText(complete)
  }

  /** Every range in the written form matches, and the match captures its parts. */
  lemma MatchRendered(unit: string, first: nat, last: nat, complete: Option<nat>)
    requires |unit| > 0 && forall i :: 0 <= i < |unit| ==> IsLetter(unit[i])
    ensures MatchAt(RangeText(unit, first, last, complete), 0) == Some(RangeMatch(unit, first, last, complete))
  {
    var h := RangeText(unit, first, last, complete);
    UnitRendered(unit, first, last, complete);
    PositionsRendered(unit + " ", first, last, complete);
    MatchFrom(h, 0, |unit|, |unit| + 1, (first, last, complete));
  }

  /** The unit of a range in the written form is its leading run of letters, followed by one space. */
  lemma UnitRendered(unit: string, first: nat, last: nat, complete: Option<nat>)
    requires |unit| > 0 && forall i :: 0 <= i < |unit| ==> IsLetter(unit[i])
    ensures var h := RangeText(unit, first, last, complete);
      && SkipLetters(h, 0) == |unit| && h[0..|unit|] == unit && SkipSet(h, |unit|, SPACE_CHARS) == |unit| + 1
  {
    RangeTextHead(unit, first, last, complete);
    UnitAt(RangeText(unit, first, last, complete), unit);
  }

  /** The written form starts with the unit, a space and a digit. */
  lemma RangeTextHead(unit: string, first: nat, last: nat, complete: Option<nat>)
    ensures var h := RangeText(unit, first, last, complete);
      && |h| > |unit| + 1 && h[|unit|] == ' ' && IsDigit(h[|unit| + 1])
      && forall i :: 0 <= i < |unit| ==> h[i] == unit[i]
  {
    var a := NatToString(first);
    var h := RangeText(unit, first, last, complete);
    assert h[|unit| + 1] == a[0];
  }

  /** A string that starts with a unit of letters, one space and a digit. */
  lemma UnitAt(s: string, unit: string)
    requires |unit| + 1 < |s| && forall i :: 0 <= i < |unit| ==> IsLetter(unit[i]) && s[i] == unit[i]
    requires s[|unit|] == ' ' && IsDigit(s[|unit| + 1])
    ensures SkipLetters(s, 0) == |unit| && s[0..|unit|] == unit && SkipSet(s, |unit|, SPACE_CHARS) == |unit| + 1
  {
    SkipLettersRun(s, 0, |unit|);
  }

  /** `MatchAt` from the unit and the gap it reads. */
  lemma MatchFrom(s: string, p: nat, a: nat, b: nat, n: (nat, nat, Option<nat>))
    requires p < a < b <= |s| && SkipLetters(s, p) == a && SkipSet(s, a, SPACE_CHARS) == b
    requires Positions(s, b) == Some(n)
    ensures MatchAt(s, p) == Some(RangeMatch(s[p..a], n.0, n.1, n.2))
  {
  }

  /** The numbers of a range in the written form are read back after any prefix. */
  lemma PositionsRendered(pre: string, first: nat, last: nat, complete: Option<nat>)
    ensures var s := pre + NatToString(first) + "-" + NatToString(last) + "/" + CompleteText(complete);
      Positions(s, |pre|) == Some((first, last, complete))
  {
    if complete.Some? {
      PositionsText(pre, NatToString(first), NatToString(last), NatToString(complete.value));
    } else {
      PositionsStar(pre, NatToString(first), NatToString(last));
    }
  }

  lemma PositionsText(pre: string, a: string, b: string, c: string)
    requires |a| > 0 && AllDigits(a) && |b| > 0 && AllDigits(b) && |c| > 0 && AllDigits(c)
    ensures Positions(pre + a + "-" + b + "/" + c, |pre|) == Some((DigitsValue(a), DigitsValue(b), Some(DigitsValue(c))))
  {
    ConcatLayout(pre, a, b, c);
    PositionsAt(pre + a + "-" + b + "/" + c, |pre|, a, b, c);
  }

  lemma PositionsStar(pre: string, a: string, b: string)
    requires |a| > 0 && AllDigits(a) && |b| > 0 && AllDigits(b)
    ensures Positions(pre + a + "-" + b + "/" + "*", |pre|) == Some((DigitsValue(a), DigitsValue(b), None))
  {
    ConcatLayout(pre, a, b, "*");
    PositionsAtStar(pre + a + "-" + b + "/" + "*", |pre|, a, b);
  }

  /** Where the pieces of "<pre><a>-<b>/<c>" sit. */
  lemma ConcatLayout(pre: string, a: string, b: string, c: string)
    ensures var s := pre + a + "-" + b + "/" + c;
      && |s| == |pre| + |a| + 1 + |b| + 1 + |c|
      && Layout(s, |pre|, a, b)
      && (forall n :: 0 <= n < |c| ==> s[|pre| + |a| + 1 + |b| + 1 + n] == c[n])
  {
  }

  /** From `i`, the string reads "<a>-<b>/". */
  predicate Layout(s: string, i: nat, a: string, b: string) {
    var j, k := i + |a|, i + |a| + 1 + |b|;
    && k < |s|
    && (forall n :: 0 <= n < |a| ==> s[i + n] == a[n])
    && s[j] == '-'
    && (forall n :: 0 <= n < |b| ==> s[j + 1 + n] == b[n])
    && s[k] == '/'
  }

  /** The runs of "<a>-<b>/" are read whole. */
  lemma LayoutRuns(s: string, i: nat, a: string, b: string)
    requires |a| > 0 && AllDigits(a) && |b| > 0 && AllDigits(b) && Layout(s, i, a, b)
    ensures RunIs(s, i, i + |a|, DigitsValue(a)) && RunIs(s, i + |a| + 1, i + |a| + 1 + |b|, DigitsValue(b))
  {
    RunAt(s, i, a);
    RunAt(s, i + |a| + 1, b);
  }

  lemma PositionsAt(s: string, i: nat, a: string, b: string, c: string)
    requires |a| > 0 && AllDigits(a) && |b| > 0 && AllDigits(b) && |c| > 0 && AllDigits(c) && Layout(s, i, a, b)
    requires |s| == i + |a| + 1 + |b| + 1 + |c|
    requires forall n :: 0 <= n < |c| ==> s[i + |a| + 1 + |b| + 1 + n] == c[n]
    ensures Positions(s, i) == Some((DigitsValue(a), DigitsValue(b), Some(DigitsValue(c))))
  {
    var j, k := i + |a|, i + |a| + 1 + |b|;
    LayoutRuns(s, i, a, b);
    RunAt(s, k + 1, c);
    PositionsFrom(s, i, j, k, DigitsValue(a), DigitsValue(b), Some(DigitsValue(c)));
  }

  lemma PositionsAtStar(s: string, i: nat, a: string, b: string)
    requires |a| > 0 && AllDigits(a) && |b| > 0 && AllDigits(b) && Layout(s, i, a, b)
    requires |s| == i + |a| + 1 + |b| + 2 && s[|s| - 1] == '*'
    ensures Positions(s, i) == Some((DigitsValue(a), DigitsValue(b), None))
  {
    LayoutRuns(s, i, a, b);
    PositionsFrom(s, i, i + |a|, i + |a| + 1 + |b|, DigitsValue(a), DigitsValue(b), None);
  }

  /** `s[i..j]` is a maximal run of digits of value `v`. */
  predicate RunIs(s: string, i: nat, j: nat, v: nat) {
    i <= j <= |s| && DigitEnd(s, i) == j && DigitsBetween(s, i, j) && RunValue(s, i, j) == v
  }

  /** `Positions` from the runs it reads. */
  lemma PositionsFrom(s: string, i: nat, j: nat, k: nat, first: nat, last: nat, complete: Option<nat>)
    requires i < j < |s| && RunIs(s, i, j, first) && s[j] == '-'
    requires j + 1 < k < |s| && RunIs(s, j + 1, k, last) && s[k] == '/'
    requires complete.Some? ==> k + 1 < |s| && RunIs(s, k + 1, |s|, complete.value)
    requires complete.None? ==> k + 1 < |s| && s[k + 1] == '*'
    ensures Positions(s, i) == Some((first, last, complete))
  {
  }

  /**
   * With the complete length "*", a body of 26 bytes and the range 0-26, the
   * source computes 27 bytes, one more than the body holds from position 0.
   */
  lemma AsWrittenOverstatesLength()
    ensures ParseContentRange("bytes 0-26/*", 26, AsWritten) == Some(ContentRange(0, 26, 26, 27))
    ensures ParseContentRange("bytes 0-26/*", 26, Corrected) == Some(ContentRange(0, 26, 26, 26))
  {
    assert NatToString(26) == "26" by {
      assert NatToString(2) == "2";
    }
    assert RangeText("bytes", 0, 26, None) == "bytes 0-26/*";
    BytesUnit("bytes 0-26/*", 0, 26, None);
  }

  /** A unit other than "bytes" makes the range invalid, as in "florps 0-1" of any length. */
  lemma OtherUnitRejected(rule: CutBack)
    ensures ParseContentRange("florps 0-1/*", 3, rule) == None
  {
    assert RangeText("florps", 0, 1, None) == "florps 0-1/*";
    MatchRendered("florps", 0, 1, None);
    assert Lower("florps") != "bytes";
  }

  /** "bytes" is a unit of letters that lower-cases to itself. */
  lemma BytesUnit(h: string, first: nat, last: nat, complete: Option<nat>)
    requires h == RangeText("bytes", first, last, complete)
    ensures FirstMatch(h, 0) == Some(RangeMatch("bytes", first, last, complete))
    ensures Lower("bytes") == "bytes"
  {
    MatchRendered("bytes", first, last, complete);
    MatchFirst(h);
    LowerBytes();
  }

  /** A match at the start is the first one. */
  lemma MatchFirst(s: string)
    requires MatchAt(s, 0).Some?
    ensures FirstMatch(s, 0) == MatchAt(s, 0)
  {
  }

  lemma LowerBytes()
    ensures Lower("bytes") == "bytes"
  {
  }

  /** A unit of letters followed by something else is skipped whole. */
  lemma UnitThen(u: string, rest: string)
    requires forall i :: 0 <= i < |u| ==> IsLetter(u[i])
    requires |rest| > 0 ==> !IsLetter(rest[0])
    ensures SkipLetters(u + rest, 0) == |u| && (u + rest)[..|u|] == u
  {
    SkipLettersRun(u + rest, 0, |u|);
  }

  lemma {:induction false} SkipLettersRun(s: string, i: nat, j: nat)
    requires i <= j <= |s|
    requires forall k :: i <= k < j ==> IsLetter(s[k])
    requires j < |s| ==> !IsLetter(s[j])
    ensures SkipLetters(s, i) == j
    decreases j - i
  {
    if i < j {
      SkipLettersRun(s, i + 1, j);
    }
  }

  /** A run of digits followed by a non-digit is read whole, with its value. */
  lemma RunAt(s: string, i: nat, d: string)
    requires i + |d| <= |s| && AllDigits(d)
    requires forall n :: 0 <= n < |d| ==> s[i + n] == d[n]
    requires i + |d| < |s| ==> !IsDigit(s[i + |d|])
    ensures RunIs(s, i, i + |d|, DigitsValue(d))
  {
    forall k | i <= k < i + |d| ensures IsDigit(s[k]) {
      assert s[i + (k - i)] == d[k - i];
    }
    DigitEndRun(s, i, i + |d|);
    RunValueOf(s, i, d);
  }

  lemma {:induction false} DigitEndRun(s: string, i: nat, j: nat)
    requires i <= j <= |s|
    requires forall k :: i <= k < j ==> IsDigit(s[k])
    requires j < |s| ==> !IsDigit(s[j])
    ensures DigitEnd(s, i) == j
    decreases j - i
  {
    if i < j {
      DigitEndRun(s, i + 1, j);
    }
  }

  lemma {:induction false} RunValueOf(s: string, i: nat, d: string)
    requires i + |d| <= |s| && AllDigits(d)
    requires forall k :: 0 <= k < |d| ==> s[i + k] == d[k]
    ensures DigitsBetween(s, i, i + |d|) && RunValue(s, i, i + |d|) == DigitsValue(d)
    decreases |d|
  {
    assert DigitsBetween(s, i, i + |d|) by {
      forall k | i <= k < i + |d| ensures IsDigit(s[k]) {
        assert s[i + (k - i)] == d[k - i];
      }
    }
    if |d| > 0 {
      var d' := d[..|d| - 1];
      RunValueOf(s, i, d');
      assert s[i + |d| - 1] == d[|d| - 1];
    }
  }

  /** The range the emitter writes back, "bytes <first>-<last>/<complete>", parses back to itself. */
  lemma ParseRendered(first: nat, last: nat, complete: nat, size: int, rule: CutBack)
    requires first <= last
    ensures ParseContentRange(RangeText("bytes", first, last, Some(complete)), size, rule)
      == Some(ContentRange(first, last, complete, RangeLength(rule, first, last, complete)))
  {
    BytesUnit(RangeText("bytes", first, last, Some(complete)), first, last, Some(complete));
  }

  /** With '*' for the complete length, the body size stands in for it. */
  lemma ParseRenderedStar(first: nat, last: nat, size: int, rule: CutBack)
    requires first <= last
    ensures ParseContentRange(RangeText("bytes", first, last, None), size, rule)
      == Some(ContentRange(first, last, size, RangeLength(rule, first, last, size)))
  {
    BytesUnit(RangeText("bytes", first, last, None), first, last, None);
  }

  // ---------------------------------------------------------------------------
  // setContentLengthHeader and the constructor

  /** `setContentLengthHeader`, with a range's byte count cut back as `rule` says. */
  function SetContentLength(e: Emitter, rule: CutBack): Emitter {
    var e0 := e.(hasCustomLength := false);
    var resp := e.response;
    if !HasBody(resp) then e0.(response := WithoutHeader(resp, "Content-Length"))
    else
      var size := resp.body.size.value;
      if e0.hasContentRange then
        match ParseContentRange(GetHeaderLine(resp, "Content-Range"), size, rule)
        case None =>
          // an invalid range: the whole body is sent with 200 instead
          var ok := WithoutHeader(WithStatus(resp, 200, "OK"), "Content-Range");
          e0.(hasContentRange := false, response := WithHeader(ok, "Content-Length", IntToString(size)))
        case Some(cr) =>
          var range := "bytes " + IntToString(cr.first) + "-" + IntToString(cr.last) + "/" + IntToString(cr.complete);
          var ranged := WithHeader(resp, "Content-Range", range);
          e0.(rangeStart := cr.first, rangeLength := cr.length,
             response := WithHeader(ranged, "Content-Length", IntToString(cr.length)))
      else if !HasHeader(resp, "Content-Length") then
        e0.(response := WithHeader(resp, "Content-Length", IntToString(size)))
      else
        // a Content-Length already set is left alone; a smaller one limits the body sent
        var contentLength := IntCast(GetHeaderLine(resp, "Content-Length"));
        if contentLength < size then e0.(hasCustomLength := true, rangeLength := contentLength) else e0
  }

  /**
   * The constructor: a buffer size below 1 is rejected; a seekable body is
   * rewound. With `AsWritten` it is the source's constructor; `Corrected`
   * gives the emitter with the corrected cut-back.
   */
  function NewEmitter(response: Response, bufferSize: int, rule: CutBack): (r: Result<Emitter>)
    ensures r.Err? <==> bufferSize < 1
    ensures r.Err? ==> r.error == InvalidArgument("Buffer length must be greater than zero.")
    ensures r.Ok? ==> r.value.bufferSize == bufferSize && r.value.response.body.data == response.body.data
    ensures r.Ok? ==> r.value.response.body.size == response.body.size
    ensures r.Ok? && response.body.seekable ==> r.value.response.body.pos == 0
  {
    if bufferSize < 1 then Err(InvalidArgument("Buffer length must be greater than zero."))
    else
      var ranged := Status(response) == 206 && HasHeader(response, "Content-Range");
      var e := SetContentLength(Emitter(response, bufferSize, false, ranged, 0, 0), rule);
      var body := e.response.body;
      Ok(if body.seekable then e.(response := e.response.(body := body.(pos := 0))) else e)
  }

  // ---------------------------------------------------------------------------
  // what the emitter sends

  /** At most `length` bytes of `data` from position `first`; none when `length` is not positive. */
  function Window(data: string, first: nat, length: int): (w: string)
    ensures |w| == if length <= 0 then 0 else StreamUtil.Min(first + length, |data|) - StreamUtil.Min(first, |data|)
  {
    var lo := StreamUtil.Min(first, |data|);
    var hi := if length <= 0 then lo else StreamUtil.Min(first + length, |data|);
    data[lo..hi]
  }

  /** The body bytes the emitter sends on a connection that stays open. */
  function BodyWindow(e: Emitter): string {
    var body := e.response.body;
    if !HasBody(e.response) then ""
    else if e.hasCustomLength then Window(body.data, 0, e.rangeLength)
    else if e.hasContentRange then Window(body.data, e.rangeStart, e.rangeLength)
    else StreamUtil.Rest(body)
  }

  /** A body is sent in part only from a seekable stream. */
  predicate NeedsSeek(e: Emitter) {
    HasBody(e.response) && (e.hasCustomLength || e.hasContentRange)
  }

  /**
   * `emitBodyRange`: seeks to `first`, writes whole buffers while at least
   * one is still wanted, then the rest of `length` in one piece; a closed
   * connection ends the buffer loop, but the remainder is still written.
   */
  method EmitBodyRange(body: StreamUtil.Stream, bufferSize: int, first: nat, length: int, alive: nat -> bool)
    returns (r: Result<()>, out: seq<string>)
    requires bufferSize >= 1
    ensures r.Err? <==> !body.seekable
    ensures r.Err? ==> r.error == Runtime("body must be seekable") && out == []
    ensures forall k :: 0 <= k < |out| ==> 0 < |out[k]|
    ensures forall k :: 0 <= k < |out| - 1 ==> |out[k]| <= bufferSize
    ensures (forall k :: alive(k)) ==> forall k :: 0 <= k < |out| ==> |out[k]| <= bufferSize
    ensures StreamUtil.Flatten(out) <= Window(body.data, first, length)
    ensures (forall k :: alive(k)) && r.Ok? ==> StreamUtil.Flatten(out) == Window(body.data, first, length)
  {
    if !body.seekable {
      return Err(Runtime("body must be seekable")), [];
    }
    var data := body.data;
    var lo := StreamUtil.Min(first, |data|);
    var hi := if length <= 0 then lo else StreamUtil.Min(first + length, |data|);
    var pos, remaining, open;
    out, pos, remaining, open := EmitBuffers(data, lo, hi, length, bufferSize, alive);
    if remaining > 0 && pos < |data| {
      var next := StreamUtil.Min(pos + remaining, |data|);
      assert next == hi;
      StreamUtil.FlattenExtend(out, data, lo, pos, next);
      out := out + [data[pos..next]];
      pos := next;
    }
    assert open ==> pos == hi;
    PrefixSlice(data, lo, pos, hi);
    r := Ok(());
  }

  /**
   * The buffer loop of `emitBodyRange` over `data[lo..hi]`: whole buffers
   * while at least one is still wanted and the connection stays open.
   */
  method EmitBuffers(data: string, lo: nat, hi: nat, length: int, bufferSize: int, alive: nat -> bool)
    returns (out: seq<string>, pos: nat, remaining: int, open: bool)
    requires bufferSize >= 1 && lo <= hi <= |data|
    requires hi == if length <= 0 then lo else StreamUtil.Min(lo + length, |data|)
    ensures lo <= pos <= hi && remaining == length - (pos - lo)
    ensures forall j :: 0 <= j < |out| ==> 0 < |out[j]| <= bufferSize
    ensures StreamUtil.Flatten(out) == data[lo..pos]
    ensures !open ==> exists k: nat :: !alive(k)
    ensures open ==> remaining < bufferSize || pos == hi
  {
    pos := lo;
    remaining := length;
    var k: nat := 0;
    open := true;
    out := [];
    while remaining >= bufferSize && pos < |data| && open
      invariant lo <= pos <= hi
      invariant remaining == length - (pos - lo)
      invariant forall j :: 0 <= j < |out| ==> 0 < |out[j]| <= bufferSize
      invariant StreamUtil.Flatten(out) == data[lo..pos]
      invariant !open ==> k > 0 && !alive(k - 1)
      decreases |data| - pos, if open then 1 else 0
    {
      var next := StreamUtil.Min(pos + bufferSize, |data|);
      StreamUtil.FlattenExtend(out, data, lo, pos, next);
      out := out + [data[pos..next]];
      remaining := remaining - (next - pos);
      pos := next;
      open := alive(k);
      k := k + 1;
    }
  }

  /** `emitBody` on a whole body: buffer after buffer from the cursor to the end, until the connection closes. */
  method EmitWhole(body: StreamUtil.Stream, bufferSize: int, alive: nat -> bool) returns (out: seq<string>)
    requires bufferSize >= 1
    ensures forall k :: 0 <= k < |out| ==> 0 < |out[k]| <= bufferSize
    ensures StreamUtil.Flatten(out) <= StreamUtil.Rest(body)
    ensures (forall k :: alive(k)) ==> StreamUtil.Flatten(out) == StreamUtil.Rest(body)
  {
    var data := body.data;
    var lo := StreamUtil.Min(body.pos, |data|);
    var pos := lo;
    var k: nat := 0;
    var open := true;
    out := [];
    while pos < |data| && open
      invariant lo <= pos <= |data|
      invariant forall j :: 0 <= j < |out| ==> 0 < |out[j]| <= bufferSize
      invariant StreamUtil.Flatten(out) == data[lo..pos]
      invariant !open ==> k > 0 && !alive(k - 1)
      decreases |data| - pos, if open then 1 else 0
    {
      var next := StreamUtil.Min(pos + bufferSize, |data|);
      StreamUtil.FlattenExtend(out, data, lo, pos, next);
      out := out + [data[pos..next]];
      pos := next;
      open := alive(k);
      k := k + 1;
    }
    PrefixSlice(data, lo, pos, |data|);
  }

  /** `data[lo..mid]` is a prefix of `data[lo..hi]`. */
  lemma PrefixSlice(data: string, lo: nat, mid: nat, hi: nat)
    requires lo <= mid <= hi <= |data|
    ensures data[lo..mid] <= data[lo..hi]
  {
    assert data[lo..hi][..mid - lo] == data[lo..mid];
  }

  /** The emitter is in the state its constructor leaves. */
  predicate Valid(e: Emitter) {
    e.bufferSize >= 1
  }

  /**
   * `emitBody`: nothing without a body; the first bytes up to a smaller
   * Content-Length; the requested range; or else the whole body.
   */
  method EmitBody(e: Emitter, alive: nat -> bool) returns (r: Result<()>, out: seq<string>)
    requires Valid(e)
    ensures r.Err? <==> NeedsSeek(e) && !e.response.body.seekable
    ensures r.Err? ==> r.error == Runtime("body must be seekable") && out == []
    ensures forall k :: 0 <= k < |out| ==> 0 < |out[k]|
    ensures forall k :: 0 <= k < |out| - 1 ==> |out[k]| <= e.bufferSize
    ensures (forall k :: alive(k)) ==> forall k :: 0 <= k < |out| ==> |out[k]| <= e.bufferSize
    ensures StreamUtil.Flatten(out) <= BodyWindow(e)
    ensures (forall k :: alive(k)) && r.Ok? ==> StreamUtil.Flatten(out) == BodyWindow(e)
  {
    var body := e.response.body;
    if !HasBody(e.response) {
      return Ok(()), [];
    }
    if e.hasCustomLength {
      r, out := EmitBodyRange(body, e.bufferSize, 0, e.rangeLength, alive);
    } else if e.hasContentRange {
      r, out := EmitBodyRange(body, e.bufferSize, e.rangeStart, e.rangeLength, alive);
    } else {
      out := EmitWhole(body, e.bufferSize, alive);
      r := Ok(());
    }
  }

  // ---------------------------------------------------------------------------
  // the headers agree with the body

  /** Without a body the Content-Length header is removed and nothing is sent. */
  lemma NoBodyNoLength(response: Response, bufferSize: int, rule: CutBack)
    requires bufferSize >= 1 && !HasBody(response)
    ensures var e := NewEmitter(response, bufferSize, rule).value;
      !HasHeader(e.response, "Content-Length") && BodyWindow(e) == "" && e.response.start == response.start
  {
    WithoutHeaderSpec(response, "Content-Length", "Content-Length");
  }

  /** A valid range keeps status 206, rewrites Content-Range and sets Content-Length to the byte count. */
  lemma RangeHeaders(response: Response, bufferSize: int, rule: CutBack)
    requires bufferSize >= 1 && HasBody(response)
    requires Status(response) == 206 && HasHeader(response, "Content-Range")
    requires ParseContentRange(GetHeaderLine(response, "Content-Range"), response.body.size.value, rule).Some?
    ensures var cr := ParseContentRange(GetHeaderLine(response, "Content-Range"), response.body.size.value, rule).value;
      var e := NewEmitter(response, bufferSize, rule).value;
      && e.hasContentRange && !e.hasCustomLength && e.rangeStart == cr.first && e.rangeLength == cr.length
      && Status(e.response) == 206
      && GetHeaderLine(e.response, "Content-Range") ==
           "bytes " + IntToString(cr.first) + "-" + IntToString(cr.last) + "/" + IntToString(cr.complete)
      && GetHeaderLine(e.response, "Content-Length") == IntToString(cr.length)
  {
    var cr := ParseContentRange(GetHeaderLine(response, "Content-Range"), response.body.size.value, rule).value;
    var range := "bytes " + IntToString(cr.first) + "-" + IntToString(cr.last) + "/" + IntToString(cr.complete);
    var ranged := WithHeader(response, "Content-Range", range);
    WithHeaderGet(response, "Content-Range", range, "Content-Range");
    WithHeaderOther(ranged, "Content-Length", IntToString(cr.length), "Content-Range");
    WithHeaderGet(ranged, "Content-Length", IntToString(cr.length), "Content-Length");
  }

  /** An invalid range turns the response into a 200 without Content-Range, sending the whole body. */
  lemma InvalidRangeHeaders(response: Response, bufferSize: int, rule: CutBack)
    requires bufferSize >= 1 && HasBody(response)
    requires Status(response) == 206 && HasHeader(response, "Content-Range")
    requires ParseContentRange(GetHeaderLine(response, "Content-Range"), response.body.size.value, rule).None?
    ensures var e := NewEmitter(response, bufferSize, rule).value;
      && !e.hasContentRange && !e.hasCustomLength
      && e.response.start == StatusLine(200, "OK")
      && !HasHeader(e.response, "Content-Range")
      && GetHeaderLine(e.response, "Content-Length") == IntToString(response.body.size.value)
  {
    var ok := WithoutHeader(WithStatus(response, 200, "OK"), "Content-Range");
    var size := IntToString(response.body.size.value);
    WithoutHeaderSpec(WithStatus(response, 200, "OK"), "Content-Range", "Content-Range");
    WithHeaderOther(ok, "Content-Length", size, "Content-Range");
    WithHeaderGet(ok, "Content-Length", size, "Content-Length");
  }

  /** Without a range, a missing Content-Length is set to the body size and a present one is kept. */
  lemma PlainLengthHeaders(response: Response, bufferSize: int, rule: CutBack)
    requires bufferSize >= 1 && HasBody(response)
    requires !(Status(response) == 206 && HasHeader(response, "Content-Range"))
    ensures var e := NewEmitter(response, bufferSize, rule).value;
      && !e.hasContentRange
      && e.response.start == response.start
      && (!HasHeader(response, "Content-Length") ==>
            !e.hasCustomLength && GetHeaderLine(e.response, "Content-Length") == IntToString(response.body.size.value))
      && (HasHeader(response, "Content-Length") ==>
            e.response.headers == response.headers
            && (e.hasCustomLength <==> IntCast(GetHeaderLine(response, "Content-Length")) < response.body.size.value)
            && (e.hasCustomLength ==> e.rangeLength == IntCast(GetHeaderLine(response, "Content-Length"))))
  {
    if !HasHeader(response, "Content-Length") {
      WithHeaderGet(response, "Content-Length", IntToString(response.body.size.value), "Content-Length");
    }
  }

  /**
   * On a stream that reports its true size and can seek, with a range whose
   * complete length is the body size and whose start lies in the body, the
   * body sent on an open connection has exactly the announced length, cut
   * to the body size when a larger Content-Length was set by the caller.
   * As written this fails for a last position equal to the complete length
   * (`AsWrittenEmitterOverstates`), so that case is excluded for `AsWritten`;
   * the corrected emitter agrees on every range. A negative Content-Length
   * set by the caller is excluded too: it is kept while nothing is sent
   * (`NegativeLengthKept`).
   */
  lemma ContentLengthMatchesBody(response: Response, bufferSize: int, rule: CutBack)
    requires bufferSize >= 1 && SizedBody(response)
    requires var cr := ParseContentRange(GetHeaderLine(response, "Content-Range"), |response.body.data|, rule);
      Status(response) == 206 && HasHeader(response, "Content-Range") && cr.Some? ==>
        && cr.value.complete == |response.body.data| && cr.value.first <= |response.body.data|
        && (rule.AsWritten? ==> cr.value.last != cr.value.complete)
    requires HasHeader(response, "Content-Length") ==> IntCast(GetHeaderLine(response, "Content-Length")) >= 0
    ensures LengthAgrees(NewEmitter(response, bufferSize, rule).value, |response.body.data|)
  {
    if Status(response) == 206 && HasHeader(response, "Content-Range") {
      if ParseContentRange(GetHeaderLine(response, "Content-Range"), |response.body.data|, rule).Some? {
        RangeLengthAgrees(response, bufferSize, rule);
      } else {
        InvalidRangeLengthAgrees(response, bufferSize, rule);
      }
    } else {
      PlainLengthAgrees(response, bufferSize, rule);
    }
  }

  /** A seekable body with a body to send that reports its true size. */
  predicate SizedBody(response: Response) {
    HasBody(response) && response.body.seekable && response.body.size == Some(|response.body.data|)
  }

  /** Content-Length is sent, and the body sent has its length, cut to the `size` bytes there are. */
  predicate LengthAgrees(e: Emitter, size: nat) {
    && HasHeader(e.response, "Content-Length")
    && |BodyWindow(e)| == StreamUtil.Min(IntCast(GetHeaderLine(e.response, "Content-Length")), size)
  }

  lemma RangeLengthAgrees(response: Response, bufferSize: int, rule: CutBack)
    requires bufferSize >= 1 && SizedBody(response)
    requires Status(response) == 206 && HasHeader(response, "Content-Range")
    requires var cr := ParseContentRange(GetHeaderLine(response, "Content-Range"), |response.body.data|, rule);
      && cr.Some? && cr.value.complete == |response.body.data| && cr.value.first <= |response.body.data|
      && (rule.AsWritten? ==> cr.value.last != cr.value.complete)
    ensures LengthAgrees(NewEmitter(response, bufferSize, rule).value, |response.body.data|)
  {
    var e := NewEmitter(response, bufferSize, rule).value;
    var cr := ParseContentRange(GetHeaderLine(response, "Content-Range"), |response.body.data|, rule);
    RangeHeaders(response, bufferSize, rule);
    IntCastInt(cr.value.length);
    HeaderLinePresent(e.response, "Content-Length");
  }

  /**
   * As written, a range whose last position is the complete length, itself
   * the body size, announces in Content-Length one byte more than the
   * emitter sends: the body ends one position short of the range.
   */
  lemma AsWrittenEmitterOverstates(response: Response, bufferSize: int)
    requires bufferSize >= 1 && SizedBody(response)
    requires Status(response) == 206 && HasHeader(response, "Content-Range")
    requires var cr := ParseContentRange(GetHeaderLine(response, "Content-Range"), |response.body.data|, AsWritten);
      cr.Some? && cr.value.last == cr.value.complete == |response.body.data|
    ensures var e := NewEmitter(response, bufferSize, AsWritten).value;
      && HasHeader(e.response, "Content-Length")
      && IntCast(GetHeaderLine(e.response, "Content-Length")) == |BodyWindow(e)| + 1
  {
    var e := NewEmitter(response, bufferSize, AsWritten).value;
    var cr := ParseContentRange(GetHeaderLine(response, "Content-Range"), |response.body.data|, AsWritten);
    RangeHeaders(response, bufferSize, AsWritten);
    IntCastInt(cr.value.length);
    HeaderLinePresent(e.response, "Content-Length");
  }

  lemma InvalidRangeLengthAgrees(response: Response, bufferSize: int, rule: CutBack)
    requires bufferSize >= 1 && SizedBody(response)
    requires Status(response) == 206 && HasHeader(response, "Content-Range")
    requires ParseContentRange(GetHeaderLine(response, "Content-Range"), |response.body.data|, rule).None?
    ensures LengthAgrees(NewEmitter(response, bufferSize, rule).value, |response.body.data|)
  {
    var e := NewEmitter(response, bufferSize, rule).value;
    InvalidRangeHeaders(response, bufferSize, rule);
    IntCastInt(|response.body.data|);
    HeaderLinePresent(e.response, "Content-Length");
  }

  lemma PlainLengthAgrees(response: Response, bufferSize: int, rule: CutBack)
    requires bufferSize >= 1 && SizedBody(response)
    requires !(Status(response) == 206 && HasHeader(response, "Content-Range"))
    requires HasHeader(response, "Content-Length") ==> IntCast(GetHeaderLine(response, "Content-Length")) >= 0
    ensures LengthAgrees(NewEmitter(response, bufferSize, rule).value, |response.body.data|)
  {
    var e := NewEmitter(response, bufferSize, rule).value;
    PlainLengthHeaders(response, bufferSize, rule);
    if !HasHeader(response, "Content-Length") {
      IntCastInt(|response.body.data|);
      HeaderLinePresent(e.response, "Content-Length");
    }
  }

  /**
   * A negative Content-Length set by the caller is below any body size, so
   * it becomes the custom length: the header is kept as it is and no byte of
   * the body is sent, so the announced and the sent lengths disagree.
   */
  lemma NegativeLengthKept(response: Response, bufferSize: int, rule: CutBack)
    requires bufferSize >= 1 && SizedBody(response)
    requires !(Status(response) == 206 && HasHeader(response, "Content-Range"))
    requires HasHeader(response, "Content-Length") && IntCast(GetHeaderLine(response, "Content-Length")) < 0
    ensures var e := NewEmitter(response, bufferSize, rule).value;
      && e.response.headers == response.headers
      && e.hasCustomLength && e.rangeLength == IntCast(GetHeaderLine(response, "Content-Length"))
      && BodyWindow(e) == ""
      && !LengthAgrees(e, |response.body.data|)
  {
    PlainLengthHeaders(response, bufferSize, rule);
  }

  /** A header line that is not empty belongs to a header that is present. */
  lemma HeaderLinePresent(m: Message, name: string)
    requires GetHeaderLine(m, name) != ""
    ensures HasHeader(m, name)
  {
    if !HasHeader(m, name) {
      GetHasKey(m.headers, Lower(name));
    }
  }
}
