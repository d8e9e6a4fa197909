/**
 * Query strings (src/QueryUtil.php): cleaning parameter arrays, building a
 * query from them and parsing one back, and merging parameters into a URI.
 */
module QueryUtil {
  import opened Wrappers
  import opened Str
  import opened PhpValues
  import opened UrlCodec
  import OrderedMap
  import Sorting

  const BOOLEANS_AS_BOOL := 0
  const BOOLEANS_AS_INT := 1
  const BOOLEANS_AS_STRING := 2
  const BOOLEANS_AS_INT_STRING := 3

  const NO_ENCODING := -1
  const PHP_QUERY_RFC1738 := 1
  const PHP_QUERY_RFC3986 := 2

  type Params = seq<(Key, Value)>

  // ---------------------------------------------------------------------------
  // cleanParams

  /** The cleaned form of one value, or nothing when it is dropped. */
  function CleanValue(v: Value, boolCast: int, removeEmpty: bool): Result<Option<Value>>
    decreases v, 1
  {
    match v
    case VArr(_) =>
      var c :- CleanArray(v, 0, boolCast, removeEmpty);
      Ok(Some(VArr(c)))
    case VBool(b) => CastBool(b, boolCast)
    case VStr(s) => Ok(CleanString(s, removeEmpty))
    case _ => Ok(if removeEmpty && !IsNumeric(v) && Empty(v) then None else Some(v))
  }

  function CastBool(b: bool, boolCast: int): Result<Option<Value>> {
    if boolCast == BOOLEANS_AS_BOOL then Ok(Some(VBool(b)))
    else if boolCast == BOOLEANS_AS_INT then Ok(Some(VInt(if b then 1 else 0)))
    else if boolCast == BOOLEANS_AS_STRING then Ok(Some(VStr(if b then "true" else "false")))
    else if boolCast == BOOLEANS_AS_INT_STRING then Ok(Some(VStr(if b then "1" else "0")))
    else Err(InvalidArgument("invalid $bool_cast parameter value"))
  }

  function CleanString(s: string, removeEmpty: bool): Option<Value> {
    var t := Trim(s);
    if removeEmpty && Empty(VStr(t)) then None else Some(VStr(t))
  }

  /** Cleans the entries of array `a` from position `i` on, keeping their keys and order. */
  function CleanArray(a: Value, i: nat, boolCast: int, removeEmpty: bool): Result<Params>
    requires a.VArr? && i <= |a.entries|
    decreases a, 0, |a.entries| - i
  {
    if i == |a.entries| then Ok([])
    else
      var head :- CleanValue(a.entries[i].1, boolCast, removeEmpty);
      var tail :- CleanArray(a, i + 1, boolCast, removeEmpty);
      Ok((if head.Some? then [(a.entries[i].0, head.value)] else []) + tail)
  }

  /** `cleanParams($params, $bool_cast, $remove_empty)`; the defaults are BOOLEANS_AS_BOOL and true. */
  function CleanParams(params: Params, boolCast: int, removeEmpty: bool): Result<Params> {
    CleanArray(VArr(params), 0, boolCast, removeEmpty)
  }

  /** Some boolean occurs in the value, at any depth. */
  predicate HasBool(v: Value)
    decreases v, 1
  {
    match v
    case VBool(_) => true
    case VArr(_) => HasBoolFrom(v, 0)
    case _ => false
  }

  predicate HasBoolFrom(a: Value, i: nat)
    requires a.VArr? && i <= |a.entries|
    decreases a, 0, |a.entries| - i
  {
    i < |a.entries| && (HasBool(a.entries[i].1) || HasBoolFrom(a, i + 1))
  }

  function ValidBoolCast(boolCast: int): bool {
    0 <= boolCast <= 3
  }

  /** Cleaning fails iff the cast mode is invalid and a boolean occurs anywhere. */
  lemma {:induction false} CleanValueFails(v: Value, boolCast: int, removeEmpty: bool)
    ensures CleanValue(v, boolCast, removeEmpty).Err? <==> !ValidBoolCast(boolCast) && HasBool(v)
    ensures CleanValue(v, boolCast, removeEmpty).Err? ==>
      CleanValue(v, boolCast, removeEmpty).error == InvalidArgument("invalid $bool_cast parameter value")
    decreases v, 1
  {
    if v.VArr? {
      CleanArrayFails(v, 0, boolCast, removeEmpty);
    }
  }

  lemma {:induction false} CleanArrayFails(a: Value, i: nat, boolCast: int, removeEmpty: bool)
    requires a.VArr? && i <= |a.entries|
    ensures CleanArray(a, i, boolCast, removeEmpty).Err? <==> !ValidBoolCast(boolCast) && HasBoolFrom(a, i)
    ensures CleanArray(a, i, boolCast, removeEmpty).Err? ==>
      CleanArray(a, i, boolCast, removeEmpty).error == InvalidArgument("invalid $bool_cast parameter value")
    decreases a, 0, |a.entries| - i
  {
    if i < |a.entries| {
      CleanValueFails(a.entries[i].1, boolCast, removeEmpty);
      CleanArrayFails(a, i + 1, boolCast, removeEmpty);
    }
  }

  /** No character `trim` strips at either end. */
  predicate Trimmed(s: string) {
    |s| > 0 ==> s[0] !in TRIM_CHARS && s[|s| - 1] !in TRIM_CHARS
  }

  /** What a cleaned value can look like. */
  predicate Cleaned(w: Value, boolCast: int, removeEmpty: bool) {
    && (removeEmpty ==> w != VNull && w != VStr(""))
    && (removeEmpty && w == VStr("0") ==> boolCast == BOOLEANS_AS_INT_STRING)
    && (w.VStr? ==> Trimmed(w.s))
    && (boolCast != BOOLEANS_AS_BOOL ==> !w.VBool?)
  }

  lemma CleanValueShape(v: Value, boolCast: int, removeEmpty: bool)
    requires CleanValue(v, boolCast, removeEmpty).Ok? && CleanValue(v, boolCast, removeEmpty).value.Some?
    ensures Cleaned(CleanValue(v, boolCast, removeEmpty).value.value, boolCast, removeEmpty)
  {
    match v
    case VStr(s) =>
      CleanStringShape(s, boolCast, removeEmpty);
    case VBool(b) =>
      CastBoolShape(b, boolCast);
    case VArr(_) =>
    case _ =>
  }

  lemma CleanStringShape(s: string, boolCast: int, removeEmpty: bool)
    requires CleanString(s, removeEmpty).Some?
    ensures Cleaned(CleanString(s, removeEmpty).value, boolCast, removeEmpty)
  {
    TrimShape(s, TRIM_CHARS);
  }

  lemma CastBoolShape(b: bool, boolCast: int)
    requires CastBool(b, boolCast).Ok?
    ensures var w := CastBool(b, boolCast).value.value;
            (w.VStr? ==> Trimmed(w.s)) && (boolCast != BOOLEANS_AS_BOOL ==> !w.VBool?)
  {
  }

  /**
   * With `remove_empty`, no null and no empty string survives (a "0" survives
   * only as the cast of false); strings are trimmed; with a converting cast
   * mode no boolean survives at the top level.
   */
  lemma {:induction false} CleanArrayShape(a: Value, i: nat, boolCast: int, removeEmpty: bool)
    requires a.VArr? && i <= |a.entries|
    requires CleanArray(a, i, boolCast, removeEmpty).Ok?
    ensures var r := CleanArray(a, i, boolCast, removeEmpty).value;
            forall j :: 0 <= j < |r| ==> Cleaned(r[j].1, boolCast, removeEmpty)
    decreases |a.entries| - i
  {
    if i < |a.entries| {
      CleanArrayShape(a, i + 1, boolCast, removeEmpty);
      var head := CleanValue(a.entries[i].1, boolCast, removeEmpty).value;
      if head.Some? {
        CleanValueShape(a.entries[i].1, boolCast, removeEmpty);
      }
    }
  }

  /**
   * The values cleaning drops: with `remove_empty`, null and the strings
   * that trim to "" or "0". Numbers, booleans, objects and arrays, even
   * empty ones, are always kept.
   */
  predicate Dropped(v: Value, removeEmpty: bool) {
    removeEmpty && (v.VNull? || (v.VStr? && (Trim(v.s) == "" || Trim(v.s) == "0")))
  }

  /** The entries that survive cleaning, in their order. */
  function Survivors(es: Params, removeEmpty: bool): (r: Params)
    ensures |r| <= |es|
  {
    if |es| == 0 then []
    else (if Dropped(es[0].1, removeEmpty) then [] else [es[0]]) + Survivors(es[1..], removeEmpty)
  }

  /**
   * Cleaning one value: it is dropped exactly when `Dropped` says so; a kept
   * string is its trimmed text, a boolean takes the form its cast mode asks
   * for, an array stays an array, and anything else is kept as it is.
   */
  lemma CleanValueSpec(v: Value, boolCast: int, removeEmpty: bool)
    requires CleanValue(v, boolCast, removeEmpty).Ok?
    ensures var r := CleanValue(v, boolCast, removeEmpty).value;
      && (r.None? <==> Dropped(v, removeEmpty))
      && (v.VStr? && r.Some? ==> r.value == VStr(Trim(v.s)))
      && (v.VArr? ==> r.Some? && r.value.VArr?)
      && (!v.VStr? && !v.VArr? && !v.VBool? && r.Some? ==> r.value == v)
      && (v.VBool? && boolCast == BOOLEANS_AS_BOOL ==> r == Some(v))
      && (v.VBool? && boolCast == BOOLEANS_AS_INT ==> r == Some(VInt(if v.b then 1 else 0)))
      && (v.VBool? && boolCast == BOOLEANS_AS_STRING ==> r == Some(VStr(if v.b then "true" else "false")))
      && (v.VBool? && boolCast == BOOLEANS_AS_INT_STRING ==> r == Some(VStr(if v.b then "1" else "0")))
  {
  }

  /**
   * Cleaning an array keeps exactly the surviving entries, in order and
   * under their keys, each with its cleaned value; a nested array is cleaned
   * in place and kept even when it comes out empty.
   */
  lemma {:induction false} CleanArraySpec(a: Value, i: nat, boolCast: int, removeEmpty: bool)
    requires a.VArr? && i <= |a.entries|
    requires CleanArray(a, i, boolCast, removeEmpty).Ok?
    ensures var r, keep := CleanArray(a, i, boolCast, removeEmpty).value, Survivors(a.entries[i..], removeEmpty);
      && |r| == |keep|
      && forall j :: 0 <= j < |r| ==>
           && CleanValue(keep[j].1, boolCast, removeEmpty).Ok?
           && CleanValue(keep[j].1, boolCast, removeEmpty).value.Some?
           && r[j] == (keep[j].0, CleanValue(keep[j].1, boolCast, removeEmpty).value.value)
    decreases |a.entries| - i
  {
    if i < |a.entries| {
      CleanArraySpec(a, i + 1, boolCast, removeEmpty);
      CleanValueSpec(a.entries[i].1, boolCast, removeEmpty);
      assert a.entries[i..][1..] == a.entries[i + 1..];
    }
  }

  /** Without `remove_empty`, every key survives, in order. */
  lemma {:induction false} CleanKeepsKeys(a: Value, i: nat, boolCast: int)
    requires a.VArr? && i <= |a.entries|
    requires CleanArray(a, i, boolCast, false).Ok?
    ensures OrderedMap.Keys(CleanArray(a, i, boolCast, false).value) == OrderedMap.Keys(a.entries[i..])
    decreases |a.entries| - i
  {
    if i < |a.entries| {
      CleanKeepsKeys(a, i + 1, boolCast);
      assert a.entries[i..] == [a.entries[i]] + a.entries[i + 1..];
    }
  }

  // ---------------------------------------------------------------------------
  // build

  /** `(string)$v`; an object without `__toString` cannot be converted. */
  function StrCast(v: Value): Result<string> {
    match v
    case VArr(_) => Ok("Array")
    case VFile(_) => Err(EngineError("Object of class UploadedFile could not be converted to string"))
    case VObj(cls) => Err(EngineError("Object of class " + cls + " could not be converted to string"))
    case _ => Ok(ToStr(v))
  }

  /** The string `sort(..., SORT_STRING)` compares a value by. */
  function SortString(v: Value): string {
    if StrCast(v).Ok? then StrCast(v).value else ""
  }

  /** The encoder `build` selects: RFC 3986, RFC 1738, or none for any other code. */
  function Encode(encoding: int, s: string): string {
    if encoding == PHP_QUERY_RFC3986 then RawUrlEncode(s)
    else if encoding == PHP_QUERY_RFC1738 then UrlEncode(s)
    else s
  }

  /** One "key=value" pair: a null value leaves the bare key, a boolean becomes 0 or 1. */
  function Pair(key: string, v: Value, encoding: int, enclosure: string): Result<string> {
    if v.VNull? then Ok(key)
    else
      var s :- StrCast(if v.VBool? then VInt(if v.b then 1 else 0) else v);
      Ok(key + "=" + enclosure + Encode(encoding, s) + enclosure)
  }

  function Pairs(key: string, vs: seq<Value>, encoding: int, enclosure: string): Result<seq<string>> {
    if |vs| == 0 then Ok([])
    else
      var p :- Pair(key, vs[0], encoding, enclosure);
      var rest :- Pairs(key, vs[1..], encoding, enclosure);
      Ok([p] + rest)
  }

  function Values(entries: Params): (vs: seq<Value>)
    ensures |vs| == |entries|
    ensures forall i :: 0 <= i < |entries| ==> vs[i] == entries[i].1
  {
    seq(|entries|, i requires 0 <= i < |entries| => entries[i].1)
  }

  /** The pairs of one parameter; a list yields one pair per value, sorted by string form. */
  function EntryPairs(k: Key, v: Value, encoding: int, enclosure: string): Result<seq<string>> {
    var key := Encode(encoding, KeyString(k));
    if v.VArr? then Pairs(key, Sorting.SortBy(Values(v.entries), SortString), encoding, enclosure)
    else Pairs(key, [v], encoding, enclosure)
  }

  /** The pairs of every parameter, in order; the first failure stops the walk. */
  function AllPairs(params: Params, encoding: int, enclosure: string): Result<seq<string>> {
    ConcatAll(params, PairsOf(encoding, enclosure))
  }

  function PairsOf(encoding: int, enclosure: string): ((Key, Value)) -> Result<seq<string>> {
    (e: (Key, Value)) => EntryPairs(e.0, e.1, encoding, enclosure)
  }

  function ConcatAll<T>(xs: seq<T>, f: T -> Result<seq<string>>): Result<seq<string>> {
    if |xs| == 0 then Ok([])
    else
      var head :- f(xs[0]);
      var rest :- ConcatAll(xs[1..], f);
      Ok(head + rest)
  }

  function ParamKey(p: (Key, Value)): string {
    KeyString(p.0)
  }

  /**
   * `build($params, $encoding, $delimiter, $enclosure)`; absent arguments
   * default to RFC 3986, '&' and ''.
   */
  function Build(params: Params, encoding: Option<int>, delimiter: Option<string>, enclosure: Option<string>): Result<string> {
    if |params| == 0 then Ok("")
    else
      var pairs :- AllPairs(Sorting.SortBy(params, ParamKey), encoding.GetOr(PHP_QUERY_RFC3986), enclosure.GetOr(""));
      Ok(Join(pairs, delimiter.GetOr("&")))
  }

  // ---------------------------------------------------------------------------
  // parse

  function ReplacePlus(s: string): (r: string)
    ensures |r| == |s|
  {
    seq(|s|, i requires 0 <= i < |s| => if s[i] == '+' then ' ' else s[i])
  }

  /** The decoder `parse` selects; a missing or unrecognised code reads '+' as a space. */
  function Decode(urlEncoding: Option<int>, s: string): string {
    if urlEncoding == Some(NO_ENCODING) then s
    else if urlEncoding == Some(PHP_QUERY_RFC3986) then RawUrlDecode(s)
    else if urlEncoding == Some(PHP_QUERY_RFC1738) then UrlDecode(s)
    else RawUrlDecode(ReplacePlus(s))
  }

  /** A key and, when the pair has an '=', its value. */
  function SplitPair(pair: string, urlEncoding: Option<int>): (string, Option<string>) {
    var kv := SplitFirst(pair, '=');
    (Decode(urlEncoding, kv.0), if kv.1.Some? then Some(Decode(urlEncoding, kv.1.value)) else None)
  }

  /** `$list[] = $v` on a list whose keys are 0 .. n-1. */
  function ListAppend(list: Params, v: Value): Params {
    list + [(IntKey(|list|), v)]
  }

  /** Adds one parsed pair: an unset (or null) key is assigned, a set one collects a list. */
  function AddPair(acc: Params, key: string, value: Option<string>): Params {
    var k := ArrayKey(key);
    var v := if value.Some? then VStr(value.value) else VNull;
    var existing := OrderedMap.Get(acc, k);
    if existing.None? || existing.value.VNull? then OrderedMap.Put(acc, k, v)
    else if existing.value.VArr? then OrderedMap.Put(acc, k, VArr(ListAppend(existing.value.entries, v)))
    else OrderedMap.Put(acc, k, VArr([(IntKey(0), existing.value), (IntKey(1), v)]))
  }

  function Collect(pairs: seq<(string, Option<string>)>): Params {
    if |pairs| == 0 then [] else AddPair(Collect(pairs[..|pairs| - 1]), pairs[|pairs| - 1].0, pairs[|pairs| - 1].1)
  }

  function SplitPairs(parts: seq<string>, urlEncoding: Option<int>): (r: seq<(string, Option<string>)>)
    ensures |r| == |parts|
    ensures forall i :: 0 <= i < |parts| ==> r[i] == SplitPair(parts[i], urlEncoding)
  {
    seq(|parts|, i requires 0 <= i < |parts| => SplitPair(parts[i], urlEncoding))
  }

  /** `parse($query, $urlEncoding)`. */
  function Parse(query: string, urlEncoding: Option<int>): Params {
    var q := TrimBy(query, {'?'});
    if q == "" then [] else Collect(SplitPairs(Split(q, '&'), urlEncoding))
  }

  /** Every key occurs once in what `parse` returns. */
  lemma {:induction false} CollectUnique(ps: seq<(string, Option<string>)>)
    ensures OrderedMap.UniqueKeys(Collect(ps))
  {
    if |ps| > 0 {
      var q := ps[..|ps| - 1];
      var p := ps[|ps| - 1];
      CollectUnique(q);
      var m := Collect(q);
      var k := ArrayKey(p.0);
      var existing := OrderedMap.Get(m, k);
      var v := if p.1.Some? then VStr(p.1.value) else VNull;
      if existing.None? || existing.value.VNull? {
        OrderedMap.PutUnique(m, k, v);
      } else if existing.value.VArr? {
        OrderedMap.PutUnique(m, k, VArr(ListAppend(existing.value.entries, v)));
      } else {
        OrderedMap.PutUnique(m, k, VArr([(IntKey(0), existing.value), (IntKey(1), v)]));
      }
    }
  }

  /** Adding a pair keeps the keys in place and appends its key when it is new. */
  lemma AddPairKeys(m: Params, key: string, value: Option<string>)
    ensures var ks := OrderedMap.Keys(AddPair(m, key, value));
      (ks == OrderedMap.Keys(m) || ks == OrderedMap.Keys(m) + [ArrayKey(key)]) && ArrayKey(key) in ks
  {
    var pk := ArrayKey(key);
    var existing := OrderedMap.Get(m, pk);
    var v := if value.Some? then VStr(value.value) else VNull;
    var nv := if existing.None? || existing.value.VNull? then v
      else if existing.value.VArr? then VArr(ListAppend(existing.value.entries, v))
      else VArr([(IntKey(0), existing.value), (IntKey(1), v)]);
    var m' := OrderedMap.Put(m, pk, nv);
    assert AddPair(m, key, value) == m';
    OrderedMap.PutKeys(m, pk, nv);
    OrderedMap.PutGet(m, pk, nv);
    assert OrderedMap.Keys(m')[OrderedMap.IndexOf(m', pk)] == pk;
  }

  /** The keys of the pairs, as `parse` stores them. */
  function PairKeys(ps: seq<(string, Option<string>)>): (ks: seq<Key>)
    ensures |ks| == |ps|
  {
    if |ps| == 0 then [] else PairKeys(ps[..|ps| - 1]) + [ArrayKey(ps[|ps| - 1].0)]
  }

  /** `parse` holds a key iff some pair of the query names it. */
  lemma {:induction false} CollectKeys(ps: seq<(string, Option<string>)>, k: Key)
    ensures k in OrderedMap.Keys(Collect(ps)) <==> k in PairKeys(ps)
  {
    if |ps| > 0 {
      var q := ps[..|ps| - 1];
      CollectKeys(q, k);
      AddPairKeys(Collect(q), ps[|ps| - 1].0, ps[|ps| - 1].1);
    }
  }

  // ---------------------------------------------------------------------------
  // merge

  /** `array_merge($a, $b)`: integer keys are renumbered from 0, string keys are overwritten in place. */
  function ArrayMerge(a: Params, b: Params): Params {
    MergeFrom([], 0, a + b)
  }

  function MergeFrom(acc: Params, next: int, es: Params): Params
    decreases |es|
  {
    if |es| == 0 then acc
    else if es[0].0.IntKey? then MergeFrom(acc + [(IntKey(next), es[0].1)], next + 1, es[1..])
    else MergeFrom(OrderedMap.Put(acc, es[0].0, es[0].1), next, es[1..])
  }

  /**
   * `merge($uri, $query)`. `uriQuery` is the query component `parseUrl`
   * extracts from `$uri` (None when there is none or the URI does not parse).
   */
  function Merge(uri: string, query: Params, uriQuery: Option<string>): Result<string> {
    var params := ArrayMerge(Parse(uriQuery.GetOr(""), None), query);
    var base := Split(uri, '?')[0];
    if |params| > 0 then
      var q :- Build(params, None, None, None);
      Ok(base + "?" + q)
    else Ok(base)
  }

  // ---------------------------------------------------------------------------
  // properties

  /** The decoder used when no code is given is `urldecode`. */
  lemma {:induction false} DefaultDecodeIsUrlDecode(s: string)
    ensures RawUrlDecode(ReplacePlus(s)) == UrlDecode(s)
  {
    if |s| > 0 {
      var r := ReplacePlus(s);
      assert ReplacePlus(s[1..]) == r[1..];
      if |s| >= 3 {
        assert ReplacePlus(s[3..]) == r[3..];
      }
      DefaultDecodeIsUrlDecode(s[1..]);
      if |s| >= 3 {
        DefaultDecodeIsUrlDecode(s[3..]);
      }
    }
  }

  lemma MergeFromOther(acc: Params, next: int, es: Params, k: Key)
    requires k.StrKey?
    requires forall i :: 0 <= i < |es| ==> es[i].0 != k
    ensures OrderedMap.Get(MergeFrom(acc, next, es), k) == OrderedMap.Get(acc, k)
    decreases |es|
  {
    if |es| > 0 {
      if es[0].0.IntKey? {
        OrderedMap.GetAppendOther(acc, IntKey(next), es[0].1, k);
      } else {
        OrderedMap.PutOther(acc, es[0].0, es[0].1, k);
      }
      MergeFromOther(if es[0].0.IntKey? then acc + [(IntKey(next), es[0].1)] else OrderedMap.Put(acc, es[0].0, es[0].1),
        if es[0].0.IntKey? then next + 1 else next, es[1..], k);
    }
  }

  lemma {:induction false} MergeFromLast(acc: Params, next: int, es: Params, i: nat)
    requires i < |es| && es[i].0.StrKey?
    requires forall j :: i < j < |es| ==> es[j].0 != es[i].0
    ensures OrderedMap.Get(MergeFrom(acc, next, es), es[i].0) == Some(es[i].1)
    decreases |es|
  {
    var acc' := if es[0].0.IntKey? then acc + [(IntKey(next), es[0].1)] else OrderedMap.Put(acc, es[0].0, es[0].1);
    var next' := if es[0].0.IntKey? then next + 1 else next;
    if i == 0 {
      OrderedMap.PutGet(acc, es[0].0, es[0].1);
      MergeFromOther(acc', next', es[1..], es[0].0);
    } else {
      MergeFromLast(acc', next', es[1..], i - 1);
    }
  }

  /**
   * `array_merge` on string keys: a key of the second array takes its value
   * from there; any other key keeps the first array's value.
   */
  lemma ArrayMergeStringKeys(a: Params, b: Params, k: Key)
    requires k.StrKey?
    requires OrderedMap.UniqueKeys(a) && OrderedMap.UniqueKeys(b)
    ensures OrderedMap.Get(ArrayMerge(a, b), k) == if OrderedMap.HasKey(b, k) then OrderedMap.Get(b, k) else OrderedMap.Get(a, k)
  {
    var es := a + b;
    if OrderedMap.HasKey(b, k) {
      var i := OrderedMap.IndexOf(b, k);
      MergeFromLast([], 0, es, |a| + i);
    } else if OrderedMap.HasKey(a, k) {
      var i := OrderedMap.IndexOf(a, k);
      OrderedMap.HasKeyIff(b, k);
      MergeFromLast([], 0, es, i);
    } else {
      OrderedMap.HasKeyIff(a, k);
      OrderedMap.HasKeyIff(b, k);
      MergeFromOther([], 0, es, k);
    }
  }

  lemma {:induction false} MergeFromNonEmpty(acc: Params, next: int, es: Params)
    ensures |MergeFrom(acc, next, es)| >= |acc|
    ensures |es| > 0 ==> |MergeFrom(acc, next, es)| > 0
    decreases |es|
  {
    if |es| > 0 {
      var acc' := if es[0].0.IntKey? then acc + [(IntKey(next), es[0].1)] else OrderedMap.Put(acc, es[0].0, es[0].1);
      assert |acc'| >= 1 && |acc'| >= |acc|;
      MergeFromNonEmpty(acc', if es[0].0.IntKey? then next + 1 else next, es[1..]);
    }
  }

  /**
   * `merge` keeps the URI up to its first '?'. New parameters always bring a
   * query after it; with no parameters, old or new, nothing is added.
   */
  lemma MergeShape(uri: string, query: Params, uriQuery: Option<string>)
    ensures var base := Split(uri, '?')[0];
      var r := Merge(uri, query, uriQuery);
      && '?' !in base && base <= uri
      && (r.Ok? ==> base <= r.value)
      && (|query| > 0 && r.Ok? ==> |r.value| > |base| && r.value[|base|] == '?')
      && (|query| == 0 && (uriQuery.None? || TrimBy(uriQuery.value, {'?'}) == "") ==> r == Ok(base))
  {
    SplitHead(uri, '?');
    var old_ := Parse(uriQuery.GetOr(""), None);
    MergeFromNonEmpty([], 0, old_ + query);
    if |query| == 0 && (uriQuery.None? || TrimBy(uriQuery.value, {'?'}) == "") {
      assert TrimBy(uriQuery.GetOr(""), {'?'}) == "";
      assert old_ + query == [];
    }
  }

  // ---------------------------------------------------------------------------
  // recursiveRawurlencode

  /** `recursiveRawurlencode($data)`: arrays are mapped entry by entry, keeping their keys. */
  function RecursiveRawurlencode(v: Value): Result<Value>
    decreases v, 1
  {
    if v.VArr? then
      var es :- RawurlencodeFrom(v, 0);
      Ok(VArr(es))
    else if !IsScalar(v) && !v.VNull? then Err(InvalidArgument("$data is neither scalar nor null"))
    else Ok(VStr(RawUrlEncode(ToStr(v))))
  }

  function RawurlencodeFrom(a: Value, i: nat): Result<Params>
    requires a.VArr? && i <= |a.entries|
    decreases a, 0, |a.entries| - i
  {
    if i == |a.entries| then Ok([])
    else
      var head :- RecursiveRawurlencode(a.entries[i].1);
      var tail :- RawurlencodeFrom(a, i + 1);
      Ok([(a.entries[i].0, head)] + tail)
  }

  /** Some object occurs in the value, at any depth. */
  predicate HasObject(v: Value)
    decreases v, 1
  {
    match v
    case VArr(_) => HasObjectFrom(v, 0)
    case _ => !IsScalar(v) && !v.VNull?
  }

  predicate HasObjectFrom(a: Value, i: nat)
    requires a.VArr? && i <= |a.entries|
    decreases a, 0, |a.entries| - i
  {
    i < |a.entries| && (HasObject(a.entries[i].1) || HasObjectFrom(a, i + 1))
  }

  /** Every string a value holds, at any depth, stands for bytes. */
  predicate ByteLeaves(v: Value)
    decreases v, 1
  {
    match v
    case VArr(_) => ByteLeavesFrom(v, 0)
    case _ => (IsScalar(v) || v.VNull?) ==> IsByteString(ToStr(v))
  }

  predicate ByteLeavesFrom(a: Value, i: nat)
    requires a.VArr? && i <= |a.entries|
    decreases a, 0, |a.entries| - i
  {
    i < |a.entries| ==> ByteLeaves(a.entries[i].1) && ByteLeavesFrom(a, i + 1)
  }

  /** `rawurldecode` applied to every leaf; the inverse the encoder is checked against. */
  function RecursiveRawurldecode(v: Value): Value
    decreases v, 1
  {
    match v
    case VArr(_) => VArr(RawurldecodeFrom(v, 0))
    case VStr(s) => VStr(RawUrlDecode(s))
    case _ => v
  }

  function RawurldecodeFrom(a: Value, i: nat): Params
    requires a.VArr? && i <= |a.entries|
    decreases a, 0, |a.entries| - i
  {
    if i == |a.entries| then []
    else [(a.entries[i].0, RecursiveRawurldecode(a.entries[i].1))] + RawurldecodeFrom(a, i + 1)
  }

  /** The string form every leaf of an encodable value is read as. */
  function LeafStrings(v: Value): Value
    decreases v, 1
  {
    match v
    case VArr(_) => VArr(LeafStringsFrom(v, 0))
    case _ => if IsScalar(v) || v.VNull? then VStr(ToStr(v)) else v
  }

  function LeafStringsFrom(a: Value, i: nat): Params
    requires a.VArr? && i <= |a.entries|
    decreases a, 0, |a.entries| - i
  {
    if i == |a.entries| then []
    else [(a.entries[i].0, LeafStrings(a.entries[i].1))] + LeafStringsFrom(a, i + 1)
  }

  /** Encoding fails, with the library's message, iff an object occurs anywhere. */
  lemma {:induction false} RecursiveRawurlencodeFails(v: Value)
    ensures RecursiveRawurlencode(v).Err? <==> HasObject(v)
    ensures RecursiveRawurlencode(v).Err? ==>
      RecursiveRawurlencode(v).error == InvalidArgument("$data is neither scalar nor null")
    decreases v, 1
  {
    if v.VArr? {
      RawurlencodeFromFails(v, 0);
    }
  }

  lemma {:induction false} RawurlencodeFromFails(a: Value, i: nat)
    requires a.VArr? && i <= |a.entries|
    ensures RawurlencodeFrom(a, i).Err? <==> HasObjectFrom(a, i)
    ensures RawurlencodeFrom(a, i).Err? ==>
      RawurlencodeFrom(a, i).error == InvalidArgument("$data is neither scalar nor null")
    decreases a, 0, |a.entries| - i
  {
    if i < |a.entries| {
      RecursiveRawurlencodeFails(a.entries[i].1);
      RawurlencodeFromFails(a, i + 1);
    }
  }

  /**
   * Decoding every leaf of the encoding gives back the value with each leaf
   * read as a string: keys, order and nesting are kept.
   */
  lemma {:induction false} RecursiveRawurlencodeRoundTrip(v: Value)
    requires !HasObject(v) && ByteLeaves(v)
    ensures RecursiveRawurlencode(v).Ok?
    ensures RecursiveRawurldecode(RecursiveRawurlencode(v).value) == LeafStrings(v)
    decreases v, 1
  {
    RecursiveRawurlencodeFails(v);
    if v.VArr? {
      RawurlencodeFromRoundTrip(v, 0);
    } else {
      RawUrlRoundTrip(ToStr(v));
    }
  }

  lemma {:induction false} RawurlencodeFromRoundTrip(a: Value, i: nat)
    requires a.VArr? && i <= |a.entries|
    requires !HasObjectFrom(a, i) && ByteLeavesFrom(a, i)
    ensures RawurlencodeFrom(a, i).Ok?
    ensures RawurldecodeFrom(VArr(RawurlencodeFrom(a, i).value), 0) == LeafStringsFrom(a, i)
    decreases a, 0, |a.entries| - i
  {
    RawurlencodeFromFails(a, i);
    if i < |a.entries| {
      RecursiveRawurlencodeRoundTrip(a.entries[i].1);
      RawurlencodeFromRoundTrip(a, i + 1);
      var es := RawurlencodeFrom(a, i).value;
      var rest := RawurlencodeFrom(a, i + 1).value;
      assert es == [es[0]] + rest;
      RawurldecodeFromCons(es[0], rest);
    }
  }

  /** Decoding a list entry by entry: the head, then the rest. */
  lemma RawurldecodeFromCons(e: (Key, Value), rest: Params)
    ensures RawurldecodeFrom(VArr([e] + rest), 0) ==
      [(e.0, RecursiveRawurldecode(e.1))] + RawurldecodeFrom(VArr(rest), 0)
  {
    var a := [e] + rest;
    assert a[1..] == rest[0..];
    RawurldecodeFromOffset(VArr(a), VArr(rest), 1, 0);
  }

  /** Decoding from position `i` of `a` is decoding from position `j` of `b` when the tails agree. */
  lemma {:induction false} RawurldecodeFromOffset(a: Value, b: Value, i: nat, j: nat)
    requires a.VArr? && b.VArr? && i <= |a.entries| && j <= |b.entries|
    requires a.entries[i..] == b.entries[j..]
    ensures RawurldecodeFrom(a, i) == RawurldecodeFrom(b, j)
    decreases |a.entries| - i
  {
    if i < |a.entries| {
      assert a.entries[i] == a.entries[i..][0] == b.entries[j..][0] == b.entries[j];
      assert a.entries[i + 1..] == a.entries[i..][1..];
      assert b.entries[j + 1..] == b.entries[j..][1..];
      RawurldecodeFromOffset(a, b, i + 1, j + 1);
    }
  }

  // ---------------------------------------------------------------------------
  // build(parse(q)) == q without encoding

  /** A parsed pair written back as text. */
  function Render(p: (string, Option<string>)): string {
    p.0 + (if p.1.Some? then "=" + p.1.value else "")
  }

  function Renders(ps: seq<(string, Option<string>)>): (r: seq<string>)
    ensures |r| == |ps|
    ensures forall i :: 0 <= i < |ps| ==> r[i] == Render(ps[i])
  {
    seq(|ps|, i requires 0 <= i < |ps| => Render(ps[i]))
  }

  /**
   * The pairs are already in the order `build` writes them: keys ascending in
   * `strcmp` order, and a repeated key carries a value every time, in ascending order.
   */
  predicate InBuildOrder(ps: seq<(string, Option<string>)>) {
    && (forall i, j :: 0 <= i < j < |ps| ==> StrLe(ps[i].0, ps[j].0))
    && (forall i :: 0 <= i < |ps| - 1 && ps[i].0 == ps[i + 1].0 ==>
          ps[i].1.Some? && ps[i + 1].1.Some? && StrLe(ps[i].1.value, ps[i + 1].1.value))
  }

  predicate StrLt(a: string, b: string) {
    StrLe(a, b) && a != b
  }

  /** A list collected by `parse`: keys 0 .. n-1, at least two string values, in ascending order. */
  lemma RenderForm(p: (string, Option<string>))
    ensures p.1.None? ==> Render(p) == p.0
    ensures p.1.Some? ==> Render(p) == p.0 + "=" + p.1.value
  {
    if p.1.None? {
      assert p.0 + "" == p.0;
    } else {
      assert p.0 + "=" + p.1.value == p.0 + ("=" + p.1.value);
    }
  }

  ghost predicate ListShape(l: Params) {
    && |l| >= 2
    && (forall i :: 0 <= i < |l| ==> l[i].0 == IntKey(i) && l[i].1.VStr?)
    && (forall i, j :: 0 <= i < j < |l| ==> StrLe(l[i].1.s, l[j].1.s))
  }

  ghost predicate ValueShape(v: Value) {
    v.VNull? || v.VStr? || (v.VArr? && ListShape(v.entries))
  }

  /** The value a parsed entry received last. */
  ghost function LastValue(v: Value): Option<string>
    requires ValueShape(v)
  {
    if v.VNull? then None
    else if v.VStr? then Some(v.s)
    else Some(v.entries[|v.entries| - 1].1.s)
  }

  /** The pairs `build` writes for a collected list under `key`, without encoding. */
  ghost function ListRender(key: string, l: Params): (r: seq<string>)
    requires forall i :: 0 <= i < |l| ==> l[i].1.VStr?
    ensures |r| == |l|
    ensures forall i :: 0 <= i < |l| ==> r[i] == key + "=" + l[i].1.s
  {
    if |l| == 0 then [] else ListRender(key, l[..|l| - 1]) + [key + "=" + l[|l| - 1].1.s]
  }

  /** The pairs `build` writes for one collected entry, without encoding. */
  ghost function EntryRender(e: (Key, Value)): seq<string>
    requires ValueShape(e.1)
  {
    var key := KeyString(e.0);
    match e.1
    case VNull => [key]
    case VStr(s) => [key + "=" + s]
    case VArr(l) => ListRender(key, l)
  }

  ghost predicate AllShaped(m: Params) {
    forall i :: 0 <= i < |m| ==> ValueShape(m[i].1)
  }

  /** The pairs `build` writes for a collected array, entry by entry in the order given. */
  ghost function Rendered(m: Params): seq<string>
    requires AllShaped(m)
  {
    if |m| == 0 then [] else Rendered(m[..|m| - 1]) + EntryRender(m[|m| - 1])
  }

  /** What `Collect` has built from the pairs `ps` seen so far. */
  ghost predicate CollectInv(ps: seq<(string, Option<string>)>, m: Params) {
    && |ps| >= 1 && |m| >= 1
    && m[|m| - 1].0 == ArrayKey(ps[|ps| - 1].0)
    && (forall i, j :: 0 <= i < j < |m| ==> StrLt(KeyString(m[i].0), KeyString(m[j].0)))
    && AllShaped(m)
    && LastValue(m[|m| - 1].1) == ps[|ps| - 1].1
    && Rendered(m) == Renders(ps)
  }

  lemma {:induction false} PairsStrings(key: string, vs: seq<Value>)
    requires forall i :: 0 <= i < |vs| ==> vs[i].VStr? || vs[i].VNull?
    ensures Pairs(key, vs, NO_ENCODING, "").Ok?
    ensures var r := Pairs(key, vs, NO_ENCODING, "").value;
            |r| == |vs| && forall i :: 0 <= i < |vs| ==> r[i] == (if vs[i].VNull? then key else key + "=" + vs[i].s)
  {
    if |vs| > 0 {
      PairsStrings(key, vs[1..]);
    }
  }

  lemma {:induction false} ConcatAllAppend<T>(xs: seq<T>, x: T, f: T -> Result<seq<string>>)
    requires ConcatAll(xs, f).Ok? && f(x).Ok?
    ensures ConcatAll(xs + [x], f) == Ok(ConcatAll(xs, f).value + f(x).value)
  {
    var tail := f(x).value;
    if |xs| == 0 {
      assert xs + [x] == [x] && [x][1..] == [];
      assert tail + [] == tail && [] + tail == tail;
    } else {
      var head := f(xs[0]).value;
      var rest := ConcatAll(xs[1..], f).value;
      assert (xs + [x])[0] == xs[0] && (xs + [x])[1..] == xs[1..] + [x];
      ConcatAllAppend(xs[1..], x, f);
      assert head + (rest + tail) == (head + rest) + tail;
    }
  }

  /** Without encoding, `build` writes exactly the reference rendering of a collected entry. */
  lemma EntryPairsRender(e: (Key, Value))
    requires ValueShape(e.1)
    ensures EntryPairs(e.0, e.1, NO_ENCODING, "") == Ok(EntryRender(e))
  {
    var key := KeyString(e.0);
    assert Encode(NO_ENCODING, key) == key;
    if e.1.VArr? {
      var l := e.1.entries;
      calc {
        EntryPairs(e.0, e.1, NO_ENCODING, "");
        Pairs(key, Sorting.SortBy(Values(l), SortString), NO_ENCODING, "");
        { ListSortedNoop(l); }
        Pairs(key, Values(l), NO_ENCODING, "");
        { ListPairsRender(key, l); }
        Ok(ListRender(key, l));
      }
    } else {
      ScalarPairsRender(key, e.1);
    }
  }

  /** A collected list is already in `SORT_STRING` order. */
  lemma ListSortedNoop(l: Params)
    requires ListShape(l)
    ensures Sorting.SortBy(Values(l), SortString) == Values(l)
  {
    var vs := Values(l);
    assert forall i :: 0 <= i < |vs| ==> SortString(vs[i]) == l[i].1.s;
    assert Sorting.SortedBy(vs, SortString);
    Sorting.SortSortedNoop(vs, SortString);
  }

  lemma ListPairsRender(key: string, l: Params)
    requires forall i :: 0 <= i < |l| ==> l[i].1.VStr?
    ensures Pairs(key, Values(l), NO_ENCODING, "") == Ok(ListRender(key, l))
  {
    var vs := Values(l);
    PairsStrings(key, vs);
    var r := Pairs(key, vs, NO_ENCODING, "").value;
    assert forall i :: 0 <= i < |l| ==> r[i] == ListRender(key, l)[i];
    assert r == ListRender(key, l);
  }

  lemma ScalarPairsRender(key: string, v: Value)
    requires v.VNull? || v.VStr?
    ensures Pairs(key, [v], NO_ENCODING, "") == Ok(if v.VNull? then [key] else [key + "=" + v.s])
  {
    PairsStrings(key, [v]);
    var r := Pairs(key, [v], NO_ENCODING, "").value;
    assert r == [r[0]];
  }

  /** Without encoding, `build` writes a collected array's reference rendering. */
  lemma {:induction false} AllPairsRender(m: Params)
    requires AllShaped(m)
    ensures AllPairs(m, NO_ENCODING, "") == Ok(Rendered(m))
  {
    if |m| > 0 {
      var n := |m| - 1;
      assert AllShaped(m[..n]);
      AllPairsRender(m[..n]);
      EntryPairsRender(m[n]);
      ConcatAllAppend(m[..n], m[n], PairsOf(NO_ENCODING, ""));
      SplitLast(m);
    }
  }

  lemma SplitLast<T>(s: seq<T>)
    requires |s| >= 1
    ensures s == s[..|s| - 1] + [s[|s| - 1]]
  {
  }

  lemma UpdateLast<T>(s: seq<T>, x: T)
    requires |s| >= 1
    ensures s[|s| - 1 := x] == s[..|s| - 1] + [x]
  {
  }

  lemma RenderedAppend(m: Params, e: (Key, Value))
    requires AllShaped(m) && ValueShape(e.1)
    ensures AllShaped(m + [e]) && Rendered(m + [e]) == Rendered(m) + EntryRender(e)
  {
    assert (m + [e])[..|m|] == m;
  }

  lemma CollectFirst(p: (string, Option<string>))
    ensures CollectInv([p], AddPair([], p.0, p.1))
  {
    var e := (ArrayKey(p.0), if p.1.Some? then VStr(p.1.value) else VNull);
    OrderedMap.IndexOfAt<Key, Value>([], e.0, 0);
    assert AddPair([], p.0, p.1) == [e];
    CollectSingle(p, e);
  }

  lemma CollectSingle(p: (string, Option<string>), e: (Key, Value))
    requires e == (ArrayKey(p.0), if p.1.Some? then VStr(p.1.value) else VNull)
    ensures CollectInv([p], [e])
  {
    RenderedAppend([], e);
    assert [] + [e] == [e];
    EntryRenderPair(p);
    assert Renders([p]) == [Render(p)];
  }

  /** The entry one parsed pair creates renders as the pair's text. */
  lemma EntryRenderPair(p: (string, Option<string>))
    ensures EntryRender((ArrayKey(p.0), if p.1.Some? then VStr(p.1.value) else VNull)) == [Render(p)]
  {
    ArrayKeyString(p.0);
    RenderForm(p);
  }

  lemma RendersAppend(ps: seq<(string, Option<string>)>, p: (string, Option<string>))
    ensures Renders(ps + [p]) == Renders(ps) + [Render(p)]
  {
  }

  /** A pair whose key is above every collected key lands at the end under a new key. */
  lemma NewKeyForm(ps: seq<(string, Option<string>)>, m: Params, p: (string, Option<string>))
    requires CollectInv(ps, m)
    requires StrLt(ps[|ps| - 1].0, p.0)
    ensures AddPair(m, p.0, p.1) == m + [(ArrayKey(p.0), if p.1.Some? then VStr(p.1.value) else VNull)]
    ensures forall j :: 0 <= j < |m| ==> StrLt(KeyString(m[j].0), p.0)
  {
    var last := ps[|ps| - 1].0;
    ArrayKeyString(p.0);
    ArrayKeyString(last);
    forall j | 0 <= j < |m|
      ensures StrLt(KeyString(m[j].0), p.0)
    {
      if j < |m| - 1 {
        StrLeTrans(KeyString(m[j].0), last, p.0);
        if KeyString(m[j].0) == p.0 {
          StrLeAntisym(last, p.0);
        }
      }
    }
    OrderedMap.IndexOfAt(m, ArrayKey(p.0), |m|);
  }

  /** A pair with a new, larger key is appended as a new entry. */
  lemma CollectNewKey(ps: seq<(string, Option<string>)>, m: Params, p: (string, Option<string>))
    requires CollectInv(ps, m)
    requires StrLt(ps[|ps| - 1].0, p.0)
    ensures CollectInv(ps + [p], AddPair(m, p.0, p.1))
  {
    var e := (ArrayKey(p.0), if p.1.Some? then VStr(p.1.value) else VNull);
    NewKeyForm(ps, m, p);
    ArrayKeyString(p.0);
    AppendAscending(m, e);
    RenderedAppend(m, e);
    EntryRenderPair(p);
    RendersAppend(ps, p);
  }

  /** An entry whose key is above every key of an ascending array keeps it ascending. */
  lemma AppendAscending(m: Params, e: (Key, Value))
    requires forall i, j :: 0 <= i < j < |m| ==> StrLt(KeyString(m[i].0), KeyString(m[j].0))
    requires forall j :: 0 <= j < |m| ==> StrLt(KeyString(m[j].0), KeyString(e.0))
    ensures var m' := m + [e];
      forall i, j :: 0 <= i < j < |m'| ==> StrLt(KeyString(m'[i].0), KeyString(m'[j].0))
  {
    var m' := m + [e];
    assert forall i :: 0 <= i < |m| ==> m'[i] == m[i];
  }

  /** The value `parse` stores when a key it holds as `old_` receives the string `s`. */
  function Extended(old_: Value, s: string): Value {
    if old_.VArr? then VArr(ListAppend(old_.entries, VStr(s)))
    else VArr([(IntKey(0), old_), (IntKey(1), VStr(s))])
  }

  lemma ExtendedSorted(old_: Value, s: string)
    requires ValueShape(old_) && !old_.VNull?
    requires StrLe(LastValue(old_).value, s)
    ensures ValueShape(Extended(old_, s)) && LastValue(Extended(old_, s)) == Some(s)
  {
    if old_.VArr? {
      ListAppendSorted(old_.entries, s);
    }
  }

  lemma ListAppendSorted(o: Params, s: string)
    requires ListShape(o) && StrLe(o[|o| - 1].1.s, s)
    ensures ListShape(ListAppend(o, VStr(s)))
  {
    var l := ListAppend(o, VStr(s));
    assert forall i :: 0 <= i < |o| ==> l[i] == o[i];
    forall i, j | 0 <= i < j < |l|
      ensures StrLe(l[i].1.s, l[j].1.s)
    {
      if j == |o| && i < |o| - 1 {
        StrLeTrans(o[i].1.s, o[|o| - 1].1.s, s);
      }
    }
  }

  /** Receiving another value adds exactly one pair to what `build` writes for the entry. */
  lemma ExtendedRender(key: Key, old_: Value, s: string)
    requires ValueShape(old_) && !old_.VNull?
    requires StrLe(LastValue(old_).value, s)
    ensures ValueShape(Extended(old_, s))
    ensures EntryRender((key, Extended(old_, s))) == EntryRender((key, old_)) + [KeyString(key) + "=" + s]
  {
    ExtendedSorted(old_, s);
    var nv := Extended(old_, s);
    if old_.VArr? {
      assert nv.entries[..|old_.entries|] == old_.entries;
    } else {
      assert nv.entries[..1] == [(IntKey(0), old_)];
      assert nv.entries[..1][..0] == [];
    }
  }

  /** A pair repeating the last key rewrites only the last entry, extending its value. */
  lemma SameKeyForm(ps: seq<(string, Option<string>)>, m: Params, p: (string, Option<string>))
    requires CollectInv(ps, m)
    requires ps[|ps| - 1].0 == p.0 && ps[|ps| - 1].1.Some? && p.1.Some?
    ensures var n := |m| - 1;
      AddPair(m, p.0, p.1) == m[..n] + [(m[n].0, Extended(m[n].1, p.1.value))]
  {
    var n := |m| - 1;
    var key := ArrayKey(p.0);
    assert forall j :: 0 <= j < n ==> KeyString(m[j].0) != KeyString(m[n].0);
    OrderedMap.IndexOfAt(m, key, n);
    UpdateLast(m, (key, Extended(m[n].1, p.1.value)));
  }

  /** Extending the last entry adds one pair to the rendering of the whole array. */
  lemma ExtendLastRender(m: Params, s: string)
    requires |m| >= 1 && AllShaped(m)
    requires !m[|m| - 1].1.VNull? && StrLe(LastValue(m[|m| - 1].1).value, s)
    ensures var n := |m| - 1;
      var m' := m[..n] + [(m[n].0, Extended(m[n].1, s))];
      AllShaped(m') && Rendered(m') == Rendered(m) + [KeyString(m[n].0) + "=" + s]
      && LastValue(m'[n].1) == Some(s)
  {
    var n := |m| - 1;
    var key := m[n].0;
    var nv := Extended(m[n].1, s);
    ExtendedSorted(m[n].1, s);
    assert AllShaped(m[..n]);
    assert Rendered(m) == Rendered(m[..n]) + EntryRender(m[n]) by {
      SplitLast(m);
      RenderedAppend(m[..n], m[n]);
    }
    calc {
      Rendered(m[..n] + [(key, nv)]);
      { RenderedAppend(m[..n], (key, nv)); }
      Rendered(m[..n]) + EntryRender((key, nv));
      { ExtendedRender(key, m[n].1, s); }
      Rendered(m[..n]) + (EntryRender(m[n]) + [KeyString(key) + "=" + s]);
      Rendered(m) + [KeyString(key) + "=" + s];
    }
  }

  /** A pair repeating the last key extends that entry into a list. */
  lemma CollectSameKey(ps: seq<(string, Option<string>)>, m: Params, p: (string, Option<string>))
    requires CollectInv(ps, m)
    requires ps[|ps| - 1].0 == p.0
    requires ps[|ps| - 1].1.Some? && p.1.Some? && StrLe(ps[|ps| - 1].1.value, p.1.value)
    ensures CollectInv(ps + [p], AddPair(m, p.0, p.1))
  {
    var n := |m| - 1;
    var m' := m[..n] + [(m[n].0, Extended(m[n].1, p.1.value))];
    SameKeyForm(ps, m, p);
    assert forall i :: 0 <= i < |m'| ==> m'[i].0 == m[i].0;
    assert Rendered(m') == Renders(ps + [p]) by {
      ExtendLastRender(m, p.1.value);
      ArrayKeyString(p.0);
      RenderForm(p);
      RendersAppend(ps, p);
    }
  }

  lemma {:induction false} CollectBuildOrder(ps: seq<(string, Option<string>)>)
    requires |ps| >= 1 && InBuildOrder(ps)
    ensures CollectInv(ps, Collect(ps))
  {
    var q := ps[..|ps| - 1];
    var p := ps[|ps| - 1];
    if |ps| == 1 {
      assert q == [] && ps == [p];
      CollectFirst(p);
    } else {
      assert ps == q + [p];
      assert InBuildOrder(q);
      CollectBuildOrder(q);
      CollectStep(q, p);
    }
  }

  /** One more pair in build order keeps the invariant of `Collect`. */
  lemma CollectStep(q: seq<(string, Option<string>)>, p: (string, Option<string>))
    requires |q| >= 1 && CollectInv(q, Collect(q)) && InBuildOrder(q + [p])
    ensures CollectInv(q + [p], Collect(q + [p]))
  {
    var ps := q + [p];
    var last := q[|q| - 1];
    assert ps[|q| - 1] == last && ps[|q|] == p;
    assert ps[..|q|] == q;
    assert StrLe(last.0, p.0);
    if last.0 == p.0 {
      CollectSameKey(q, Collect(q), p);
    } else {
      CollectNewKey(q, Collect(q), p);
    }
  }

  /** `build` without encoding writes back, in order, the pairs it is given in build order. */
  lemma BuildCollect(ps: seq<(string, Option<string>)>)
    requires |ps| >= 1 && InBuildOrder(ps)
    ensures Build(Collect(ps), Some(NO_ENCODING), None, None) == Ok(Join(Renders(ps), "&"))
  {
    var m := Collect(ps);
    CollectBuildOrder(ps);
    assert Sorting.SortedBy(m, ParamKey);
    Sorting.SortSortedNoop(m, ParamKey);
    AllPairsRender(m);
  }

  /** Each pair of a query, split at its first '=' and rendered again, is unchanged. */
  lemma RenderSplit(parts: seq<string>)
    ensures Renders(SplitPairs(parts, Some(NO_ENCODING))) == parts
  {
    var ps := SplitPairs(parts, Some(NO_ENCODING));
    forall i | 0 <= i < |parts|
      ensures Render(ps[i]) == parts[i]
    {
      var k, v := SplitFirst(parts[i], '=').0, SplitFirst(parts[i], '=').1;
      assert ps[i] == (k, v);
      RenderForm(ps[i]);
      if v.Some? {
        assert parts[i] == k + "=" + v.value;
      }
    }
  }

  /**
   * With NO_ENCODING, `build(parse(q))` gives back `q` when `q` has no '?' at
   * either end and its pairs are already in build order.
   */
  lemma BuildParseRoundTrip(q: string)
    requires |q| > 0 ==> q[0] != '?' && q[|q| - 1] != '?'
    requires InBuildOrder(SplitPairs(Split(q, '&'), Some(NO_ENCODING)))
    ensures Build(Parse(q, Some(NO_ENCODING)), Some(NO_ENCODING), None, None) == Ok(q)
  {
    if q != "" {
      var parts := Split(q, '&');
      var ps := SplitPairs(parts, Some(NO_ENCODING));
      ParseUntrimmed(q, Some(NO_ENCODING));
      BuildCollect(ps);
      RenderSplit(parts);
      JoinSplit(q, '&');
    } else {
      assert TrimBy(q, {'?'}) == "";
    }
  }

  /** A query with no '?' at either end is split as it is. */
  lemma ParseUntrimmed(q: string, urlEncoding: Option<int>)
    requires q != "" && q[0] != '?' && q[|q| - 1] != '?'
    ensures Parse(q, urlEncoding) == Collect(SplitPairs(Split(q, '&'), urlEncoding))
  {
    TrimNoop(q, {'?'});
  }
}
