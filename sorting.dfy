/**
 * Python's stable sort by an integer key, as used by `results.sort(key=...)` in `ping` and by
 * `sorted(..., key=...)` in `tests` (suinfra_cli/commands/rpc.py): the result is ascending by
 * key, holds the same elements, and keeps elements with equal keys in their original order.
 */
module Sorting {
  predicate SortedBy<T>(s: seq<T>, key: T -> int) {
    forall i, j :: 0 <= i < j < |s| ==> key(s[i]) <= key(s[j])
  }

  /** The elements of `s` whose key is `k`, in their order in `s`. */
  function WithKey<T>(s: seq<T>, key: T -> int, k: int): (r: seq<T>)
    ensures |r| <= |s|
    ensures forall i :: 0 <= i < |r| ==> key(r[i]) == k && r[i] in s
    ensures forall i :: 0 <= i < |s| && key(s[i]) == k ==> s[i] in r
  {
    if s == [] then []
    else (if key(s[0]) == k then [s[0]] else []) + WithKey(s[1..], key, k)
  }

  /** Puts `x` in front of the first element whose key is at least `x`'s. */
  function InsertBy<T>(x: T, s: seq<T>, key: T -> int): (r: seq<T>)
    ensures |r| == |s| + 1
  {
    if s == [] || key(x) <= key(s[0]) then [x] + s
    else [s[0]] + InsertBy(x, s[1..], key)
  }

  /** An element whose key bounds every key of a sorted list can go in front of it. */
  lemma PrependBy<T>(h: T, s: seq<T>, key: T -> int)
    requires SortedBy(s, key) && forall j :: 0 <= j < |s| ==> key(h) <= key(s[j])
    ensures SortedBy([h] + s, key)
  {
    forall i, j | 0 <= i < j < |s| + 1 ensures key(([h] + s)[i]) <= key(([h] + s)[j]) {
      assert ([h] + s)[j] == s[j - 1];
      if i > 0 {
        assert ([h] + s)[i] == s[i - 1];
      }
    }
  }

  /** Inserting `x` into a sorted list keeps it sorted and adds exactly `x`. */
  lemma {:induction false} InsertBySorted<T>(x: T, s: seq<T>, key: T -> int)
    requires SortedBy(s, key)
    ensures SortedBy(InsertBy(x, s, key), key)
    ensures multiset(InsertBy(x, s, key)) == multiset(s) + multiset{x}
  {
    if s == [] || key(x) <= key(s[0]) {
      PrependBy(x, s, key);
    } else {
      var tail := InsertBy(x, s[1..], key);
      InsertBySorted(x, s[1..], key);
      assert s == [s[0]] + s[1..];
      forall j | 0 <= j < |tail| ensures key(s[0]) <= key(tail[j]) {
        assert tail[j] in multiset(s[1..]) + multiset{x};
        if tail[j] != x {
          var m :| 0 <= m < |s[1..]| && s[1..][m] == tail[j];
          assert s[m + 1] == tail[j];
        }
      }
      PrependBy(s[0], tail, key);
    }
  }

  function Matching<T>(x: T, key: T -> int, k: int): seq<T> {
    if key(x) == k then [x] else []
  }

  lemma WithKeyCons<T>(x: T, s: seq<T>, key: T -> int, k: int)
    ensures WithKey([x] + s, key, k) == Matching(x, key, k) + WithKey(s, key, k)
  {
    assert ([x] + s)[1..] == s;
  }

  /** `x` lands ahead of every element with its key, so the equal-key order is `x` first. */
  lemma {:induction false} InsertByStable<T>(x: T, s: seq<T>, key: T -> int, k: int)
    ensures WithKey(InsertBy(x, s, key), key, k) == WithKey([x] + s, key, k)
  {
    if s != [] && key(x) > key(s[0]) {
      var tail := InsertBy(x, s[1..], key);
      calc {
        WithKey(InsertBy(x, s, key), key, k);
        { WithKeyCons(s[0], tail, key, k); }
        Matching(s[0], key, k) + WithKey(tail, key, k);
        { InsertByStable(x, s[1..], key, k); WithKeyCons(x, s[1..], key, k); }
        Matching(s[0], key, k) + (Matching(x, key, k) + WithKey(s[1..], key, k));
        { assert Matching(s[0], key, k) == [] || Matching(x, key, k) == []; }
        Matching(x, key, k) + (Matching(s[0], key, k) + WithKey(s[1..], key, k));
        { WithKeyCons(s[0], s[1..], key, k); assert [s[0]] + s[1..] == s; }
        Matching(x, key, k) + WithKey(s, key, k);
        { WithKeyCons(x, s, key, k); }
        WithKey([x] + s, key, k);
      }
    }
  }

  /** The stable ascending arrangement of `s` by `key`. */
  function SortBy<T>(s: seq<T>, key: T -> int): (r: seq<T>)
    ensures |r| == |s|
  {
    if s == [] then [] else InsertBy(s[0], SortBy(s[1..], key), key)
  }

  lemma {:induction false} InsertByPermutes<T>(x: T, s: seq<T>, key: T -> int)
    ensures multiset(InsertBy(x, s, key)) == multiset(s) + multiset{x}
  {
    if s != [] && key(x) > key(s[0]) {
      InsertByPermutes(x, s[1..], key);
      assert s == [s[0]] + s[1..];
    }
  }

  lemma {:induction false} SortByOrdered<T>(s: seq<T>, key: T -> int)
    ensures SortedBy(SortBy(s, key), key)
  {
    if s != [] {
      SortByOrdered(s[1..], key);
      InsertBySorted(s[0], SortBy(s[1..], key), key);
    }
  }

  lemma {:induction false} SortByPermutes<T>(s: seq<T>, key: T -> int)
    ensures multiset(SortBy(s, key)) == multiset(s)
  {
    if s != [] {
      SortByPermutes(s[1..], key);
      InsertByPermutes(s[0], SortBy(s[1..], key), key);
      assert s == [s[0]] + s[1..];
    }
  }

  /** The result is ascending by key and a permutation of the input. */
  lemma SortBySorted<T>(s: seq<T>, key: T -> int)
    ensures SortedBy(SortBy(s, key), key)
    ensures multiset(SortBy(s, key)) == multiset(s)
  {
    SortByOrdered(s, key);
    SortByPermutes(s, key);
  }

  /** Elements with equal keys keep their relative order. */
  lemma {:induction false} SortByStable<T>(s: seq<T>, key: T -> int, k: int)
    ensures WithKey(SortBy(s, key), key, k) == WithKey(s, key, k)
  {
    if s != [] {
      SortByStable(s[1..], key, k);
      InsertByStable(s[0], SortBy(s[1..], key), key, k);
      assert ([s[0]] + SortBy(s[1..], key))[1..] == SortBy(s[1..], key);
    }
  }
}
