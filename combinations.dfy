/** `getCombinations` of the balance page: all ways to choose `size` players
    out of a list, produced by backtracking over positions.

    The specification is stated over index lists: a choice of k out of n
    positions is a strictly increasing list of k indices below n, and the
    combinations of a list are the selections at those index lists, in the
    order the backtracking reaches them. */
module Choices {

  /** Strictly increasing, hence free of repetitions. */
  predicate Increasing(s: seq<nat>)
  {
    forall i, j :: 0 <= i < j < |s| ==> s[i] < s[j]
  }

  /** Every index is below `n`. */
  predicate Below(s: seq<nat>, n: nat)
  {
    forall i :: 0 <= i < |s| ==> s[i] < n
  }

  /** Every index is at least `lo`. */
  predicate AtLeast(s: seq<nat>, lo: nat)
  {
    forall i :: 0 <= i < |s| ==> lo <= s[i]
  }

  /** `c` picks `k` of the positions `0 .. n - 1`, listed in increasing order. */
  predicate IsChoice(c: seq<nat>, n: nat, k: nat)
  {
    |c| == k && Increasing(c) && Below(c, n)
  }

  /** The positions `0 .. n - 1`. */
  function Range(n: nat): (r: seq<nat>)
    ensures |r| == n && forall i :: 0 <= i < n ==> r[i] == i
  {
    seq(n, i => i)
  }

  /** What `backtrack(start, current)` appends to `result` when `current`
      holds the positions in `cur`: `cur` itself once it has `size` elements,
      otherwise every extension of `cur` by one position `i >= start`,
      explored recursively, for `i` in increasing order. */
  function Extensions(n: nat, size: nat, start: nat, cur: seq<nat>): (res: seq<seq<nat>>)
    requires start <= n && |cur| <= size && Increasing(cur) && Below(cur, start)
    ensures forall r :: r in res ==> IsChoice(r, n, size) && r[..|cur|] == cur && AtLeast(r[|cur|..], start)
    decreases n - start, 1
  {
    if |cur| == size then [cur] else ExtensionsFrom(n, size, start, cur)
  }

  /** The iterations `i, i + 1, ..., n - 1` of the loop in `backtrack`. */
  function ExtensionsFrom(n: nat, size: nat, i: nat, cur: seq<nat>): (res: seq<seq<nat>>)
    requires i <= n && |cur| < size && Increasing(cur) && Below(cur, i)
    ensures forall r :: r in res ==> IsChoice(r, n, size) && r[..|cur|] == cur && AtLeast(r[|cur|..], i)
    decreases n - i, 0
  {
    if i == n then []
    else
      var first := Extensions(n, size, i + 1, cur + [i]);
      var rest := ExtensionsFrom(n, size, i + 1, cur);
      assert forall r :: r in first ==> r[..|cur|] == cur && AtLeast(r[|cur|..], i) by {
        forall r | r in first ensures r[..|cur|] == cur && AtLeast(r[|cur|..], i) {
          assert r[..|cur| + 1] == cur + [i];
          assert r[..|cur|] == (cur + [i])[..|cur|];
          assert r[|cur|] == i;
          assert forall q :: |cur| < q < |r| ==> r[q] == r[|cur| + 1..][q - |cur| - 1];
        }
      }
      first + rest
  }

  /** The index lists `getCombinations(arr, k)` selects, for `|arr| == n`. */
  function IndexCombinations(n: nat, k: nat): (res: seq<seq<nat>>)
    ensures forall c :: c in res ==> IsChoice(c, n, k)
  {
    Extensions(n, k, 0, [])
  }

  /** The elements of `arr` at the positions `c`. */
  function Select<T>(arr: seq<T>, c: seq<nat>): (r: seq<T>)
    requires Below(c, |arr|)
    ensures |r| == |c| && forall j :: 0 <= j < |c| ==> r[j] == arr[c[j]]
  {
    seq(|c|, j requires 0 <= j < |c| => arr[c[j]])
  }

  /** `Select` applied to every index list of `cs`. */
  function SelectAll<T>(arr: seq<T>, cs: seq<seq<nat>>): (r: seq<seq<T>>)
    requires forall c :: c in cs ==> Below(c, |arr|)
    ensures |r| == |cs| && forall j :: 0 <= j < |cs| ==> r[j] == Select(arr, cs[j])
  {
    seq(|cs|, j requires 0 <= j < |cs| => Select(arr, cs[j]))
  }

  /** The combinations of size `k` of `arr`, in the order `getCombinations`
      returns them. */
  function Combinations<T>(arr: seq<T>, k: nat): seq<seq<T>>
  {
    SelectAll(arr, IndexCombinations(|arr|, k))
  }

  lemma SelectAllAppend<T>(arr: seq<T>, a: seq<seq<nat>>, b: seq<seq<nat>>)
    requires forall c :: c in a ==> Below(c, |arr|)
    requires forall c :: c in b ==> Below(c, |arr|)
    ensures SelectAll(arr, a + b) == SelectAll(arr, a) + SelectAll(arr, b)
  {
    var l, r := SelectAll(arr, a + b), SelectAll(arr, a) + SelectAll(arr, b);
    forall j | 0 <= j < |l| ensures l[j] == r[j] {
      if j < |a| {
        assert (a + b)[j] == a[j];
      } else {
        assert (a + b)[j] == b[j - |a|];
      }
    }
  }

  // ----- the backtracking itself -----

  /** `backtrack(start, current)`: `current` is passed by value together with
      the positions it was taken from (`picked`, proof only), and the shared
      `result` array is threaded through as `result` and `out`. */
  method Backtrack<T>(arr: seq<T>, size: nat, start: nat, current: seq<T>, ghost picked: seq<nat>,
                      result: seq<seq<T>>) returns (out: seq<seq<T>>)
    requires start <= |arr| && |picked| <= size && Increasing(picked) && Below(picked, start)
    requires current == Select(arr, picked)
    ensures out == result + SelectAll(arr, Extensions(|arr|, size, start, picked))
    decreases |arr| - start
  {
    if |current| == size {
      out := result + [current];
      assert SelectAll(arr, [picked]) == [current];
      return;
    }
    out := result;
    for i := start to |arr|
      invariant out + SelectAll(arr, ExtensionsFrom(|arr|, size, i, picked))
             == result + SelectAll(arr, ExtensionsFrom(|arr|, size, start, picked))
    {
      assert Select(arr, picked + [i]) == current + [arr[i]];
      ghost var before := out;
      out := Backtrack(arr, size, i + 1, current + [arr[i]], picked + [i], out);
      BacktrackStep(arr, size, i, picked, before, out);
    }
  }

  /** One iteration of the loop in `backtrack`: what the recursive call for
      position `i` appends, followed by the later iterations, is everything
      from position `i` on. */
  lemma BacktrackStep<T>(arr: seq<T>, size: nat, i: nat, picked: seq<nat>, before: seq<seq<T>>, after: seq<seq<T>>)
    requires i < |arr| && |picked| < size && Increasing(picked) && Below(picked, i)
    requires after == before + SelectAll(arr, Extensions(|arr|, size, i + 1, picked + [i]))
    ensures after + SelectAll(arr, ExtensionsFrom(|arr|, size, i + 1, picked))
         == before + SelectAll(arr, ExtensionsFrom(|arr|, size, i, picked))
  {
    var first := Extensions(|arr|, size, i + 1, picked + [i]);
    var rest := ExtensionsFrom(|arr|, size, i + 1, picked);
    assert ExtensionsFrom(|arr|, size, i, picked) == first + rest;
    SelectAllAppend(arr, first, rest);
  }

  /** `getCombinations(arr, size)`: three shortcuts, then the backtracking
      from position 0 with nothing picked. */
  method GetCombinations<T>(arr: seq<T>, size: nat) returns (r: seq<seq<T>>)
    ensures r == Combinations(arr, size)
  {
    CombinationsEdgeCases(arr, size);
    if size == 0 {
      return [[]];
    }
    if size > |arr| {
      return [];
    }
    if size == |arr| {
      return [arr];
    }
    r := Backtrack(arr, size, 0, [], [], []);
  }

  // ----- properties -----

  /** Increasing indices in `[lo, hi)` are at most `hi - lo` many. */
  lemma {:induction false} IncreasingBound(t: seq<nat>, lo: nat, hi: nat)
    requires lo <= hi && Increasing(t) && AtLeast(t, lo) && Below(t, hi)
    ensures |t| <= hi - lo
    decreases |t|
  {
    if |t| > 0 {
      assert lo <= t[0] < hi;
      assert AtLeast(t[1..], t[0] + 1) by {
        forall q | 0 <= q < |t| - 1 ensures t[0] + 1 <= t[1..][q] {
          assert t[1..][q] == t[q + 1];
        }
      }
      assert Increasing(t[1..]) && Below(t[1..], hi);
      IncreasingBound(t[1..], t[0] + 1, hi);
      assert |t[1..]| == |t| - 1;
    }
  }

  /** No extension exists when fewer positions remain than are still missing. */
  lemma ExtensionsFromEmpty(n: nat, size: nat, i: nat, cur: seq<nat>)
    requires i <= n && |cur| < size && Increasing(cur) && Below(cur, i)
    requires |cur| + (n - i) < size
    ensures ExtensionsFrom(n, size, i, cur) == []
  {
    var res := ExtensionsFrom(n, size, i, cur);
    if res != [] {
      var r := res[0];
      assert r in res;
      var t := r[|cur|..];
      assert Increasing(t) && Below(t, n) by {
        forall a | 0 <= a < |t| ensures t[a] == r[|cur| + a] {}
      }
      IncreasingBound(t, i, n);
    }
  }

  /** With every position still to be picked, the only completion of
      `0, ..., i - 1` is `0, ..., n - 1`. */
  lemma {:induction false} ExtensionsOfRange(n: nat, i: nat)
    requires i <= n
    ensures Extensions(n, n, i, Range(i)) == [Range(n)]
    decreases n - i
  {
    if i < n {
      assert Range(i) + [i] == Range(i + 1);
      ExtensionsOfRange(n, i + 1);
      ExtensionsFromEmpty(n, n, i + 1, Range(i));
    } else {
      assert Range(i) == Range(n);
    }
  }

  /** Completeness: every increasing extension of `cur` by positions at least
      `start` up to `size` elements is produced. */
  lemma {:induction false} ExtensionsComplete(n: nat, size: nat, start: nat, cur: seq<nat>, t: seq<nat>)
    requires start <= n && |cur| <= size && Increasing(cur) && Below(cur, start)
    requires Increasing(t) && AtLeast(t, start) && Below(t, n) && |cur| + |t| == size
    ensures cur + t in Extensions(n, size, start, cur)
    decreases n - start, 1
  {
    if |cur| == size {
      assert cur + t == cur;
    } else {
      ExtensionsFromComplete(n, size, start, cur, t);
    }
  }

  lemma {:induction false} ExtensionsFromComplete(n: nat, size: nat, i: nat, cur: seq<nat>, t: seq<nat>)
    requires i <= n && |cur| < size && Increasing(cur) && Below(cur, i)
    requires Increasing(t) && AtLeast(t, i) && Below(t, n) && |cur| + |t| == size
    ensures cur + t in ExtensionsFrom(n, size, i, cur)
    decreases n - i, 0
  {
    assert i <= t[0] < n;
    if t[0] == i {
      assert AtLeast(t[1..], i + 1) by {
        forall q | 0 <= q < |t[1..]| ensures i + 1 <= t[1..][q] {
          assert t[1..][q] == t[q + 1];
        }
      }
      ExtensionsComplete(n, size, i + 1, cur + [i], t[1..]);
      assert (cur + [i]) + t[1..] == cur + t;
    } else {
      ExtensionsFromComplete(n, size, i + 1, cur, t);
    }
  }

  /** Strict lexicographic order on index lists. */
  predicate LexLess(a: seq<nat>, b: seq<nat>)
  {
    |a| > 0 && |b| > 0 && (a[0] < b[0] || (a[0] == b[0] && LexLess(a[1..], b[1..])))
  }

  /** Each list comes strictly before every later one. */
  predicate LexSorted(cs: seq<seq<nat>>)
  {
    forall i, j :: 0 <= i < j < |cs| ==> LexLess(cs[i], cs[j])
  }

  lemma {:induction false} LexLessIrreflexive(a: seq<nat>)
    ensures !LexLess(a, a)
    decreases |a|
  {
    if |a| > 0 {
      LexLessIrreflexive(a[1..]);
    }
  }

  lemma {:induction false} LexLessCommonPrefix(u: seq<nat>, v: seq<nat>, w: seq<nat>)
    requires |v| > 0 && |w| > 0 && v[0] < w[0]
    ensures LexLess(u + v, u + w)
    decreases |u|
  {
    if |u| > 0 {
      assert (u + v)[1..] == u[1..] + v;
      assert (u + w)[1..] == u[1..] + w;
      LexLessCommonPrefix(u[1..], v, w);
    } else {
      assert u + v == v && u + w == w;
    }
  }

  /** The backtracking produces its lists in strictly increasing
      lexicographic order. */
  lemma {:induction false} ExtensionsSorted(n: nat, size: nat, start: nat, cur: seq<nat>)
    requires start <= n && |cur| <= size && Increasing(cur) && Below(cur, start)
    ensures LexSorted(Extensions(n, size, start, cur))
    decreases n - start, 1
  {
    if |cur| < size {
      ExtensionsFromSorted(n, size, start, cur);
    }
  }

  lemma {:induction false} ExtensionsFromSorted(n: nat, size: nat, i: nat, cur: seq<nat>)
    requires i <= n && |cur| < size && Increasing(cur) && Below(cur, i)
    ensures LexSorted(ExtensionsFrom(n, size, i, cur))
    decreases n - i, 0
  {
    if i < n {
      var first := Extensions(n, size, i + 1, cur + [i]);
      var rest := ExtensionsFrom(n, size, i + 1, cur);
      ExtensionsSorted(n, size, i + 1, cur + [i]);
      ExtensionsFromSorted(n, size, i + 1, cur);
      forall a, b | a in first && b in rest ensures LexLess(a, b) {
        assert a[..|cur| + 1] == cur + [i];
        assert a[|cur|] == i;
        assert b[..|cur|] == cur;
        assert b[|cur|..][0] == b[|cur|];
        assert i + 1 <= b[|cur|];
        assert a == cur + a[|cur|..] && b == cur + b[|cur|..];
        LexLessCommonPrefix(cur, a[|cur|..], b[|cur|..]);
      }
      var all := first + rest;
      forall x, y | 0 <= x < y < |all| ensures LexLess(all[x], all[y]) {
        if y < |first| {
          assert all[x] == first[x] && all[y] == first[y];
        } else if x >= |first| {
          assert all[x] == rest[x - |first|] && all[y] == rest[y - |first|];
        } else {
          assert all[x] in first && all[y] in rest;
        }
      }
    }
  }

  /** The index lists of `getCombinations(arr, k)` are exactly the choices of
      `k` positions of `n`: each is one, each choice occurs, they occur in
      strictly increasing lexicographic order and hence without repetition. */
  lemma IndexCombinationsExact(n: nat, k: nat)
    ensures forall c :: c in IndexCombinations(n, k) <==> IsChoice(c, n, k)
    ensures LexSorted(IndexCombinations(n, k))
    ensures forall i, j :: 0 <= i < j < |IndexCombinations(n, k)| ==>
              IndexCombinations(n, k)[i] != IndexCombinations(n, k)[j]
  {
    var cs := IndexCombinations(n, k);
    forall c | IsChoice(c, n, k) ensures c in cs {
      ExtensionsComplete(n, k, 0, [], c);
      assert [] + c == c;
    }
    ExtensionsSorted(n, k, 0, []);
    forall i, j | 0 <= i < j < |cs| ensures cs[i] != cs[j] {
      LexLessIrreflexive(cs[i]);
    }
  }

  /** The three shortcuts of `getCombinations` agree with the backtracking:
      `[[]]` for size 0, nothing when the size exceeds the list, and the list
      itself when the size equals its length. */
  lemma CombinationsEdgeCases<T>(arr: seq<T>, k: nat)
    ensures k == 0 ==> Combinations(arr, k) == [[]]
    ensures k > |arr| ==> Combinations(arr, k) == []
    ensures k == |arr| ==> Combinations(arr, k) == [arr]
  {
    var n := |arr|;
    var cs := IndexCombinations(n, k);
    if k == 0 {
      assert cs == [[]];
      assert Select(arr, []) == [];
    } else if k > n {
      ExtensionsFromEmpty(n, k, 0, []);
    } else if k == n {
      ExtensionsOfRange(n, 0);
      assert Range(0) == [];
      assert Select(arr, Range(n)) == arr;
    }
  }
}
