/**
 * PHP's ordered arrays, as sequences of key/value pairs.
 *
 * Iteration order is insertion order, `$m[$k] = $v` overwrites in place when
 * the key exists and appends otherwise, and `unset($m[$k])` removes the key.
 */
module OrderedMap {
  import opened Wrappers

  function Keys<K, V>(m: seq<(K, V)>): (ks: seq<K>)
    ensures |ks| == |m|
    ensures forall i :: 0 <= i < |m| ==> ks[i] == m[i].0
  {
    seq(|m|, i requires 0 <= i < |m| => m[i].0)
  }

  predicate UniqueKeys<K(==), V>(m: seq<(K, V)>) {
    forall i, j :: 0 <= i < j < |m| ==> m[i].0 != m[j].0
  }

  /** Position of key `k`, or `|m|` when it is absent. */
  function IndexOf<K(==), V>(m: seq<(K, V)>, k: K): (i: nat)
    ensures i <= |m|
    ensures i < |m| ==> m[i].0 == k
    ensures forall j :: 0 <= j < i ==> m[j].0 != k
  {
    if |m| == 0 then 0 else if m[0].0 == k then 0 else 1 + IndexOf(m[1..], k)
  }

  predicate HasKey<K(==), V>(m: seq<(K, V)>, k: K) {
    IndexOf(m, k) < |m|
  }

  /** `$m[$k] ?? null`. */
  function Get<K(==), V>(m: seq<(K, V)>, k: K): Option<V> {
    var i := IndexOf(m, k);
    if i < |m| then Some(m[i].1) else None
  }

  /** `$m[$k] = $v`. */
  function Put<K(==), V>(m: seq<(K, V)>, k: K, v: V): (r: seq<(K, V)>) {
    var i := IndexOf(m, k);
    if i < |m| then m[i := (k, v)] else m + [(k, v)]
  }

  /** `unset($m[$k])`. */
  function Remove<K(==), V>(m: seq<(K, V)>, k: K): (r: seq<(K, V)>)
    ensures |r| <= |m|
  {
    if |m| == 0 then [] else (if m[0].0 == k then [] else [m[0]]) + Remove(m[1..], k)
  }

  /** `IndexOf` finds the first position holding the key. */
  lemma {:induction false} IndexOfAt<K, V>(m: seq<(K, V)>, k: K, i: nat)
    requires i <= |m|
    requires i < |m| ==> m[i].0 == k
    requires forall j :: 0 <= j < i ==> m[j].0 != k
    ensures IndexOf(m, k) == i
  {
    if |m| > 0 && m[0].0 != k {
      IndexOfAt(m[1..], k, i - 1);
    }
  }

  lemma GetUnfold<K, V>(m: seq<(K, V)>, k: K)
    requires |m| > 0
    ensures Get(m, k) == if m[0].0 == k then Some(m[0].1) else Get(m[1..], k)
  {
  }

  lemma HasKeyIff<K, V>(m: seq<(K, V)>, k: K)
    ensures HasKey(m, k) <==> exists i :: 0 <= i < |m| && m[i].0 == k
  {
    if !HasKey(m, k) {
      assert forall i :: 0 <= i < |m| ==> m[i].0 != k;
    }
  }

  /** Reading a key just written gives the value written. */
  lemma PutGet<K, V>(m: seq<(K, V)>, k: K, v: V)
    ensures Get(Put(m, k, v), k) == Some(v)
  {
    var i := IndexOf(m, k);
    var r := Put(m, k, v);
    IndexOfAt(r, k, i);
  }

  /** Writing one key leaves every other key's value alone. */
  lemma PutOther<K, V>(m: seq<(K, V)>, k: K, v: V, k': K)
    requires k' != k
    ensures Get(Put(m, k, v), k') == Get(m, k')
  {
    var i := IndexOf(m, k);
    var r := Put(m, k, v);
    var i' := IndexOf(m, k');
    assert forall j :: 0 <= j < |m| && j != i ==> r[j] == m[j];
    IndexOfAt(r, k', if i' < |m| then i' else |r|);
  }

  /** Writing keeps the key order: an existing key stays in place, a new one goes last. */
  lemma PutKeys<K, V>(m: seq<(K, V)>, k: K, v: V)
    ensures HasKey(m, k) ==> Keys(Put(m, k, v)) == Keys(m)
    ensures !HasKey(m, k) ==> Keys(Put(m, k, v)) == Keys(m) + [k]
  {
  }

  lemma PutUnique<K, V>(m: seq<(K, V)>, k: K, v: V)
    requires UniqueKeys(m)
    ensures UniqueKeys(Put(m, k, v))
  {
  }

  /** After `unset`, the key is gone and the other entries keep their order. */
  lemma {:induction false} RemoveSpec<K, V>(m: seq<(K, V)>, k: K)
    ensures !HasKey(Remove(m, k), k)
    ensures forall k' :: k' != k ==> Get(Remove(m, k), k') == Get(m, k')
  {
    var r := Remove(m, k);
    if |m| > 0 {
      RemoveSpec(m[1..], k);
      forall k' | k' != k
        ensures Get(r, k') == Get(m, k')
      {
        GetUnfold(m, k');
        if m[0].0 != k {
          assert r[1..] == Remove(m[1..], k);
          GetUnfold(r, k');
        } else {
          assert r == Remove(m[1..], k);
        }
      }
      if m[0].0 != k {
        assert r[1..] == Remove(m[1..], k);
        GetUnfold(r, k);
      }
    }
  }

  /** Appending an entry under another key does not change what a key reads. */
  lemma GetAppendOther<K, V>(m: seq<(K, V)>, k: K, v: V, k': K)
    requires k' != k
    ensures Get(m + [(k, v)], k') == Get(m, k')
  {
    var i := IndexOf(m, k');
    assert forall j :: 0 <= j < |m| ==> (m + [(k, v)])[j] == m[j];
    IndexOfAt(m + [(k, v)], k', if i < |m| then i else |m| + 1);
  }

  /** With unique keys, reading a key finds exactly the entry stored under it. */
  lemma GetIn<K, V>(m: seq<(K, V)>, k: K, v: V)
    requires UniqueKeys(m)
    ensures Get(m, k) == Some(v) <==> (k, v) in m
  {
    if (k, v) in m {
      var i :| 0 <= i < |m| && m[i] == (k, v);
      IndexOfAt(m, k, i);
    }
  }
}
