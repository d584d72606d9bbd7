/** The stable sort by a numeric key that both pages use through
    `Array.prototype.sort` with a subtracting comparator: the balancer sorts
    players by score, highest first, and the timeline sorts votes by time. */
module Sorting {

  /** Keys never decrease along `s`. */
  predicate Ascending<T>(s: seq<T>, key: T -> real)
  {
    forall i, j :: 0 <= i < j < |s| ==> key(s[i]) <= key(s[j])
  }

  /** Puts `x` in front of the first element whose key is not smaller, so that
      `x` stays before every element of equal key (stability). */
  function Insert<T>(x: T, s: seq<T>, key: T -> real): (r: seq<T>)
    requires Ascending(s, key)
    ensures Ascending(r, key)
    ensures multiset(r) == multiset(s) + multiset{x}
    ensures |r| == |s| + 1 && (r[0] == x || (s != [] && r[0] == s[0]))
  {
    if s == [] || key(x) <= key(s[0]) then
      AscendingCons(x, s, key);
      [x] + s
    else
      var t := s[1..];
      var rest := Insert(x, t, key);
      assert s == [s[0]] + t;
      assert Ascending(t, key);
      assert key(s[0]) <= key(rest[0]);
      AscendingCons(s[0], rest, key);
      assert multiset([s[0]] + rest) == multiset{s[0]} + multiset(rest);
      [s[0]] + rest
  }

  /** An element no larger than the head of an ascending sequence can go in
      front of it. */
  lemma AscendingCons<T>(x: T, s: seq<T>, key: T -> real)
    requires Ascending(s, key) && (s == [] || key(x) <= key(s[0]))
    ensures Ascending([x] + s, key)
  {
    var r := [x] + s;
    forall i, j | 0 <= i < j < |r|
      ensures key(r[i]) <= key(r[j])
    {
      if i > 0 {
        assert r[i] == s[i - 1] && r[j] == s[j - 1];
      } else {
        assert r[j] == s[j - 1];
      }
    }
  }

  /** Insertion sort by `key`, ascending and stable. */
  function SortByKey<T>(s: seq<T>, key: T -> real): (r: seq<T>)
    ensures Ascending(r, key)
    ensures multiset(r) == multiset(s)
    ensures |r| == |s|
  {
    if s == [] then []
    else
      assert s == [s[0]] + s[1..];
      Insert(s[0], SortByKey(s[1..], key), key)
  }

  /** The elements of `s` whose key is `k`, in their order in `s`. */
  function WithKey<T>(s: seq<T>, key: T -> real, k: real): seq<T>
  {
    if s == [] then [] else (if key(s[0]) == k then [s[0]] else []) + WithKey(s[1..], key, k)
  }

  /** Inserting `x` puts it in front of every element of the same key. */
  lemma {:induction false} InsertStable<T>(x: T, s: seq<T>, key: T -> real, k: real)
    requires Ascending(s, key)
    ensures WithKey(Insert(x, s, key), key, k) == (if key(x) == k then [x] else []) + WithKey(s, key, k)
    decreases |s|
  {
    if s == [] || key(x) <= key(s[0]) {
      WithKeyCons(x, s, key, k);
    } else {
      var t := s[1..];
      assert s == [s[0]] + t;
      assert Ascending(t, key);
      InsertStable(x, t, key, k);
      assert Insert(x, s, key) == [s[0]] + Insert(x, t, key);
      WithKeyCons(s[0], Insert(x, t, key), key, k);
      WithKeyCons(s[0], t, key, k);
    }
  }

  /** Filtering by key one element at a time from the front. */
  lemma WithKeyCons<T>(x: T, s: seq<T>, key: T -> real, k: real)
    ensures WithKey([x] + s, key, k) == (if key(x) == k then [x] else []) + WithKey(s, key, k)
  {
    var r := [x] + s;
    assert r[0] == x && r[1..] == s;
  }

  /** The sort is stable: for every key value, the elements with that key
      come out in the order they went in. */
  lemma {:induction false} SortStable<T>(s: seq<T>, key: T -> real, k: real)
    ensures WithKey(SortByKey(s, key), key, k) == WithKey(s, key, k)
    decreases |s|
  {
    if s != [] {
      SortStable(s[1..], key, k);
      InsertStable(s[0], SortByKey(s[1..], key), key, k);
    }
  }
}
