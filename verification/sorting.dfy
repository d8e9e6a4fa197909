/**
 * Stable sorting by a string key in `strcmp` order.
 *
 * PHP 8's `sort($a, SORT_STRING)` and `uksort($a, strcmp(...))` are stable
 * sorts comparing the string forms byte-wise; `SortBy` is an insertion sort
 * with the same outcome.
 */
module Sorting {
  import opened Str

  ghost predicate SortedBy<T>(s: seq<T>, key: T -> string) {
    forall i, j :: 0 <= i < j < |s| ==> StrLe(key(s[i]), key(s[j]))
  }

  /** Inserts `x` in front of the first element whose key is not below it. */
  function Insert<T>(x: T, s: seq<T>, key: T -> string): seq<T> {
    if |s| == 0 || StrLe(key(x), key(s[0])) then [x] + s
    else [s[0]] + Insert(x, s[1..], key)
  }

  function SortBy<T>(s: seq<T>, key: T -> string): seq<T> {
    if |s| == 0 then [] else Insert(s[0], SortBy(s[1..], key), key)
  }

  lemma {:induction false} InsertPerm<T>(x: T, s: seq<T>, key: T -> string)
    ensures multiset(Insert(x, s, key)) == multiset(s) + multiset{x}
  {
    if |s| > 0 && !StrLe(key(x), key(s[0])) {
      InsertPerm(x, s[1..], key);
      assert s == [s[0]] + s[1..];
    }
  }

  lemma {:induction false} InsertSorted<T>(x: T, s: seq<T>, key: T -> string)
    requires SortedBy(s, key)
    ensures SortedBy(Insert(x, s, key), key)
  {
    if |s| == 0 {
    } else if StrLe(key(x), key(s[0])) {
      forall j | 0 <= j < |s|
        ensures StrLe(key(x), key(s[j]))
      {
        if j > 0 {
          StrLeTrans(key(x), key(s[0]), key(s[j]));
        }
      }
      ConsSorted(x, s, key);
    } else {
      StrLeTotal(key(x), key(s[0]));
      var rest := Insert(x, s[1..], key);
      InsertSorted(x, s[1..], key);
      InsertBelow(s[0], x, s[1..], key);
      ConsSorted(s[0], rest, key);
    }
  }

  /** A key below every key of a sorted sequence can go in front of it. */
  lemma ConsSorted<T>(h: T, s: seq<T>, key: T -> string)
    requires SortedBy(s, key)
    requires forall j :: 0 <= j < |s| ==> StrLe(key(h), key(s[j]))
    ensures SortedBy([h] + s, key)
  {
    var r := [h] + s;
    assert forall j :: 0 < j < |r| ==> r[j] == s[j - 1];
  }

  /** A lower bound of `x` and of every element of `s` bounds every element after inserting. */
  lemma {:induction false} InsertBelow<T>(lo: T, x: T, s: seq<T>, key: T -> string)
    requires SortedBy(s, key) && StrLe(key(lo), key(x))
    requires forall j :: 0 <= j < |s| ==> StrLe(key(lo), key(s[j]))
    ensures forall j :: 0 <= j < |Insert(x, s, key)| ==> StrLe(key(lo), key(Insert(x, s, key)[j]))
  {
    if |s| > 0 && !StrLe(key(x), key(s[0])) {
      assert SortedBy(s[1..], key);
      InsertBelow(lo, x, s[1..], key);
      var r := Insert(x, s, key);
      assert forall j :: 0 < j < |r| ==> r[j] == Insert(x, s[1..], key)[j - 1];
    }
  }

  /** The sorted sequence is a permutation of the input. */
  lemma {:induction false} SortPerm<T>(s: seq<T>, key: T -> string)
    ensures multiset(SortBy(s, key)) == multiset(s)
  {
    if |s| > 0 {
      SortPerm(s[1..], key);
      InsertPerm(s[0], SortBy(s[1..], key), key);
      assert s == [s[0]] + s[1..];
    }
  }

  /** The sorted sequence is ordered by key. */
  lemma {:induction false} SortSorted<T>(s: seq<T>, key: T -> string)
    ensures SortedBy(SortBy(s, key), key)
  {
    if |s| > 0 {
      SortSorted(s[1..], key);
      InsertSorted(s[0], SortBy(s[1..], key), key);
    }
  }

  /** Sorting what is already in order changes nothing. */
  lemma {:induction false} SortSortedNoop<T>(s: seq<T>, key: T -> string)
    requires SortedBy(s, key)
    ensures SortBy(s, key) == s
  {
    if |s| > 0 {
      assert SortedBy(s[1..], key);
      SortSortedNoop(s[1..], key);
      assert s == [s[0]] + s[1..];
    }
  }

  lemma SortLength<T>(s: seq<T>, key: T -> string)
    ensures |SortBy(s, key)| == |s|
  {
    SortPerm(s, key);
    assert |multiset(SortBy(s, key))| == |multiset(s)|;
  }
}
