/** The two partitioning strategies of the balance page (`greedyBalance` and
    `optimalBalance`): split a pool into a team-1 part of `need1` players and a
    team-2 part of `need2` players, on top of existing totals `c1` and `c2`,
    keeping the final totals close. */
module Balancer {
  import opened Players
  import opened Choices
  import opened Sorting

  /** Pools of at most this many players go to the exact search. */
  const ExactLimit: nat := 12

  function Abs(x: real): real
  {
    if x < 0.0 then -x else x
  }

  /** Team 2 of the exact search: every pool player whose id is not in team 1,
      in pool order. */
  function Complement(players: seq<Player>, team1: seq<Player>): seq<Player>
  {
    WithoutIds(players, Ids(team1))
  }

  /** `Math.abs(total1 - total2)` once both parts have been added. */
  function Spread(c1: real, c2: real, team1: seq<Player>, team2: seq<Player>): real
  {
    Abs((c1 + Total(team1)) - (c2 + Total(team2)))
  }

  /** The spread the exact search computes for one team-1 candidate. */
  function ComboSpread(players: seq<Player>, c1: real, c2: real, combo: seq<Player>): real
  {
    Spread(c1, c2, combo, Complement(players, combo))
  }

  /** A candidate the exact search does not skip (`team2Combo.length === need2`). */
  predicate Admissible(players: seq<Player>, need2: nat, combo: seq<Player>)
  {
    |Complement(players, combo)| == need2
  }

  /** Among the first `m` candidates, `j` is admissible, has the smallest
      spread, and every admissible candidate before it is strictly worse. */
  ghost predicate FirstBestAmong(players: seq<Player>, combos: seq<seq<Player>>, m: nat, need2: nat,
                                 c1: real, c2: real, j: nat)
  {
    && j < m <= |combos|
    && Admissible(players, need2, combos[j])
    && (forall i :: 0 <= i < m && Admissible(players, need2, combos[i]) ==>
          ComboSpread(players, c1, c2, combos[j]) <= ComboSpread(players, c1, c2, combos[i]))
    && (forall i :: 0 <= i < j && Admissible(players, need2, combos[i]) ==>
          ComboSpread(players, c1, c2, combos[j]) < ComboSpread(players, c1, c2, combos[i]))
  }

  /** The scan state of `optimalBalance`: nothing admissible seen yet
      (`bestDiff` still `Infinity`), or the best candidate so far. */
  datatype Pick = NoPick | Pick(team1: seq<Player>, team2: seq<Player>, diff: real)

  /** The scan of `optimalBalance` over the first `m` candidates: a skipped
      candidate changes nothing, an admissible one replaces the best so far
      only when its spread is strictly smaller. */
  function Scan(players: seq<Player>, combos: seq<seq<Player>>, m: nat, need2: nat, c1: real, c2: real): Pick
    requires m <= |combos|
    decreases m
  {
    if m == 0 then NoPick
    else
      var prev := Scan(players, combos, m - 1, need2, c1, c2);
      var t1 := combos[m - 1];
      var t2 := Complement(players, t1);
      if |t2| != need2 then prev
      else if prev.NoPick? || Spread(c1, c2, t1, t2) < prev.diff then Pick(t1, t2, Spread(c1, c2, t1, t2))
      else prev
  }

  /** What `optimalBalance` returns: the result of the scan over every
      combination of `need1` pool players, or two empty parts when none is
      admissible. */
  function ExactSplit(players: seq<Player>, need1: nat, need2: nat, c1: real, c2: real): (seq<Player>, seq<Player>)
  {
    var combos := Combinations(players, need1);
    var r := Scan(players, combos, |combos|, need2, c1, c2);
    if r.NoPick? then ([], []) else (r.team1, r.team2)
  }

  /** The first best admissible combination of size `need1` with its
      complement, or two empty teams when no combination is admissible. */
  ghost predicate ExactOutcome(players: seq<Player>, need1: nat, need2: nat, c1: real, c2: real,
                               team1: seq<Player>, team2: seq<Player>)
  {
    var combos := Combinations(players, need1);
    if exists i :: 0 <= i < |combos| && Admissible(players, need2, combos[i]) then
      exists j: nat :: FirstBestAmong(players, combos, |combos|, need2, c1, c2, j)
                  && team1 == combos[j] && team2 == Complement(players, combos[j])
    else
      team1 == [] && team2 == []
  }

  /** What the scan over the first `m` candidates is meant to find: nothing
      exactly when no candidate is admissible, and otherwise the first
      candidate of smallest spread. */
  ghost predicate ScanMeets(players: seq<Player>, combos: seq<seq<Player>>, m: nat, need2: nat,
                            c1: real, c2: real, r: Pick)
    requires m <= |combos|
  {
    && (r.NoPick? <==> forall i :: 0 <= i < m ==> !Admissible(players, need2, combos[i]))
    && (r.Pick? ==> exists j: nat :: FirstBestAmong(players, combos, m, need2, c1, c2, j)
                      && r.team1 == combos[j] && r.team2 == Complement(players, combos[j])
                      && r.diff == ComboSpread(players, c1, c2, combos[j]))
  }

  /** The scan finds nothing exactly when no candidate is admissible, and
      otherwise finds the first candidate of smallest spread. */
  lemma {:induction false} ScanFirstBest(players: seq<Player>, combos: seq<seq<Player>>, m: nat, need2: nat,
                                         c1: real, c2: real)
    requires m <= |combos|
    ensures ScanMeets(players, combos, m, need2, c1, c2, Scan(players, combos, m, need2, c1, c2))
    decreases m
  {
    if m > 0 {
      ScanFirstBest(players, combos, m - 1, need2, c1, c2);
      ScanStep(players, combos, m, need2, c1, c2);
    }
  }

  /** One scan step keeps the scan's claim. */
  lemma ScanStep(players: seq<Player>, combos: seq<seq<Player>>, m: nat, need2: nat, c1: real, c2: real)
    requires 0 < m <= |combos|
    requires ScanMeets(players, combos, m - 1, need2, c1, c2, Scan(players, combos, m - 1, need2, c1, c2))
    ensures ScanMeets(players, combos, m, need2, c1, c2, Scan(players, combos, m, need2, c1, c2))
  {
    var k := m - 1;
    if Scan(players, combos, k, need2, c1, c2).Pick? {
      ScanStepFound(players, combos, k, need2, c1, c2);
    } else {
      ScanStepEmpty(players, combos, k, need2, c1, c2);
    }
    assert k + 1 == m;
  }

  /** One scan step after an admissible candidate has been seen. */
  lemma ScanStepFound(players: seq<Player>, combos: seq<seq<Player>>, k: nat, need2: nat, c1: real, c2: real)
    requires k < |combos| && Scan(players, combos, k, need2, c1, c2).Pick?
    requires ScanMeets(players, combos, k, need2, c1, c2, Scan(players, combos, k, need2, c1, c2))
    ensures ScanMeets(players, combos, k + 1, need2, c1, c2, Scan(players, combos, k + 1, need2, c1, c2))
  {
    var prev := Scan(players, combos, k, need2, c1, c2);
    var j: nat :| FirstBestAmong(players, combos, k, need2, c1, c2, j)
                  && prev.team1 == combos[j] && prev.team2 == Complement(players, combos[j])
                  && prev.diff == ComboSpread(players, c1, c2, combos[j]);
    if Admissible(players, need2, combos[k]) && ComboSpread(players, c1, c2, combos[k]) < prev.diff {
      FirstBestReplace(players, combos, k, need2, c1, c2, j);
      assert FirstBestAmong(players, combos, k + 1, need2, c1, c2, k);
    } else {
      FirstBestKeep(players, combos, k, need2, c1, c2, j);
      assert FirstBestAmong(players, combos, k + 1, need2, c1, c2, j);
    }
  }

  /** One scan step while nothing admissible has been seen. */
  lemma ScanStepEmpty(players: seq<Player>, combos: seq<seq<Player>>, k: nat, need2: nat, c1: real, c2: real)
    requires k < |combos| && Scan(players, combos, k, need2, c1, c2).NoPick?
    requires ScanMeets(players, combos, k, need2, c1, c2, Scan(players, combos, k, need2, c1, c2))
    ensures ScanMeets(players, combos, k + 1, need2, c1, c2, Scan(players, combos, k + 1, need2, c1, c2))
  {
    var r := Scan(players, combos, k + 1, need2, c1, c2);
    if Admissible(players, need2, combos[k]) {
      assert r == Pick(combos[k], Complement(players, combos[k]), ComboSpread(players, c1, c2, combos[k]));
      FirstAdmissible(players, combos, k, need2, c1, c2);
    } else {
      assert r == NoPick;
    }
  }

  /** The first admissible candidate is the first best among those seen so far. */
  lemma FirstAdmissible(players: seq<Player>, combos: seq<seq<Player>>, k: nat, need2: nat, c1: real, c2: real)
    requires k < |combos| && Admissible(players, need2, combos[k])
    requires forall i :: 0 <= i < k ==> !Admissible(players, need2, combos[i])
    ensures ScanMeets(players, combos, k + 1, need2, c1, c2,
                      Pick(combos[k], Complement(players, combos[k]), ComboSpread(players, c1, c2, combos[k])))
  {
    assert FirstBestAmong(players, combos, k + 1, need2, c1, c2, k);
  }

  /** `ExactSplit` is the first best admissible combination. */
  lemma ExactSplitOutcome(players: seq<Player>, need1: nat, need2: nat, c1: real, c2: real)
    ensures ExactOutcome(players, need1, need2, c1, c2,
                         ExactSplit(players, need1, need2, c1, c2).0, ExactSplit(players, need1, need2, c1, c2).1)
  {
    var combos := Combinations(players, need1);
    ScanFirstBest(players, combos, |combos|, need2, c1, c2);
  }

  /** `optimalBalance`: scan every combination, keep the first with the
      strictly smallest spread. `bestDiff = Infinity` is the flag `found`
      being false. */
  method OptimalBalance(players: seq<Player>, need1: nat, need2: nat, c1: real, c2: real)
    returns (team1: seq<Player>, team2: seq<Player>)
    ensures (team1, team2) == ExactSplit(players, need1, need2, c1, c2)
  {
    var found := false;
    var bestDiff := 0.0;
    team1, team2 := [], [];
    var combinations := GetCombinations(players, need1);
    for k := 0 to |combinations|
      invariant Scan(players, combinations, k, need2, c1, c2)
             == if found then Pick(team1, team2, bestDiff) else NoPick
      invariant !found ==> team1 == [] && team2 == []
    {
      var team1Combo := combinations[k];
      var team1Ids := Ids(team1Combo);
      var team2Combo := WithoutIds(players, team1Ids);
      if |team2Combo| != need2 {
        continue;
      }
      var total1 := c1 + Total(team1Combo);
      var total2 := c2 + Total(team2Combo);
      var diff := Abs(total1 - total2);
      if !found || diff < bestDiff {
        found, bestDiff := true, diff;
        team1, team2 := team1Combo, team2Combo;
      }
    }
  }

  /** A candidate that is skipped or not strictly better leaves the best one in place. */
  lemma FirstBestKeep(players: seq<Player>, combos: seq<seq<Player>>, k: nat, need2: nat,
                      c1: real, c2: real, best: nat)
    requires k < |combos| && FirstBestAmong(players, combos, k, need2, c1, c2, best)
    requires Admissible(players, need2, combos[k]) ==>
               ComboSpread(players, c1, c2, combos[best]) <= ComboSpread(players, c1, c2, combos[k])
    ensures FirstBestAmong(players, combos, k + 1, need2, c1, c2, best)
  {
    var bestSpread := ComboSpread(players, c1, c2, combos[best]);
    forall i | 0 <= i < k + 1 && Admissible(players, need2, combos[i])
      ensures bestSpread <= ComboSpread(players, c1, c2, combos[i])
    {
      if i < k {
        assert bestSpread <= ComboSpread(players, c1, c2, combos[i]);
      }
    }
  }

  /** A strictly better candidate becomes the best one. */
  lemma FirstBestReplace(players: seq<Player>, combos: seq<seq<Player>>, k: nat, need2: nat,
                         c1: real, c2: real, best: nat)
    requires k < |combos| && FirstBestAmong(players, combos, k, need2, c1, c2, best)
    requires Admissible(players, need2, combos[k])
    requires ComboSpread(players, c1, c2, combos[k]) < ComboSpread(players, c1, c2, combos[best])
    ensures FirstBestAmong(players, combos, k + 1, need2, c1, c2, k)
  {
    var newSpread := ComboSpread(players, c1, c2, combos[k]);
    forall i | 0 <= i < k && Admissible(players, need2, combos[i])
      ensures newSpread < ComboSpread(players, c1, c2, combos[i])
    {
      assert ComboSpread(players, c1, c2, combos[best]) <= ComboSpread(players, c1, c2, combos[i]);
    }
  }

  // ----- the exact search is optimal and partitions the pool -----

  /** With distinct ids, the players at positions `c` and the players left
      over by id together form the pool. */
  lemma {:induction false} SelectPartition(s: seq<Player>, c: seq<nat>)
    requires DistinctIds(s) && Increasing(c) && Below(c, |s|)
    ensures multiset(Select(s, c)) + multiset(Complement(s, Select(s, c))) == multiset(s)
    decreases |s|
  {
    if s == [] {
      IncreasingBound(c, 0, 0);
      assert Select(s, c) == [];
    } else {
      var n := |s|;
      LastIdFresh(s);
      if |c| > 0 && c[|c| - 1] == n - 1 {
        var c' := c[..|c| - 1];
        assert Below(c', n - 1) by {
          forall q | 0 <= q < |c'| ensures c'[q] < n - 1 {
            assert c[q] < c[|c| - 1];
          }
        }
        SelectPartition(s[..n - 1], c');
        PartitionLastPicked(s, c);
      } else {
        assert Below(c, n - 1) by {
          forall q | 0 <= q < |c| ensures c[q] < n - 1 {
            assert q == |c| - 1 || c[q] < c[|c| - 1];
          }
        }
        SelectPartition(s[..n - 1], c);
        PartitionLastKept(s, c);
      }
    }
  }

  /** The inductive step of `SelectPartition` when the last player is picked. */
  lemma PartitionLastPicked(s: seq<Player>, c: seq<nat>)
    requires s != [] && |c| > 0 && c[|c| - 1] == |s| - 1 && Below(c, |s|)
    requires s[|s| - 1].id !in Ids(s[..|s| - 1])
    requires Below(c[..|c| - 1], |s| - 1)
    requires var init, c' := s[..|s| - 1], c[..|c| - 1];
      multiset(Select(init, c')) + multiset(Complement(init, Select(init, c'))) == multiset(init)
    ensures multiset(Select(s, c)) + multiset(Complement(s, Select(s, c))) == multiset(s)
  {
    var n := |s|;
    var init, last, c' := s[..n - 1], s[n - 1], c[..|c| - 1];
    assert s == init + [last];
    var sel' := Select(init, c');
    assert Select(s, c) == sel' + [last];
    assert Ids(sel' + [last]) == Ids(sel') + {last.id};
    WithoutIdsIgnoresAbsent(init, Ids(sel'), {last.id});
    assert Complement(s, Select(s, c)) == Complement(init, sel');
  }

  /** The inductive step of `SelectPartition` when the last player is left over. */
  lemma PartitionLastKept(s: seq<Player>, c: seq<nat>)
    requires s != [] && Below(c, |s| - 1)
    requires s[|s| - 1].id !in Ids(s[..|s| - 1])
    requires var init := s[..|s| - 1];
      multiset(Select(init, c)) + multiset(Complement(init, Select(init, c))) == multiset(init)
    ensures multiset(Select(s, c)) + multiset(Complement(s, Select(s, c))) == multiset(s)
  {
    var n := |s|;
    var init, last := s[..n - 1], s[n - 1];
    assert s == init + [last];
    var sel := Select(init, c);
    assert Select(s, c) == sel;
    assert last.id !in Ids(sel) by {
      forall p | p in sel ensures p.id != last.id {
        var q :| 0 <= q < |c| && sel[q] == p;
        assert init[c[q]] == p;
      }
    }
    assert Complement(s, sel) == Complement(init, sel) + [last];
  }

  /** The part left over by the exact search has the remaining size. */
  lemma ComplementSize(s: seq<Player>, c: seq<nat>)
    requires DistinctIds(s) && Increasing(c) && Below(c, |s|)
    ensures |Complement(s, Select(s, c))| == |s| - |c|
  {
    SelectPartition(s, c);
    var sel := Select(s, c);
    assert |multiset(sel)| + |multiset(Complement(s, sel))| == |multiset(s)|;
  }

  lemma LastIdFresh(s: seq<Player>)
    requires DistinctIds(s) && s != []
    ensures DistinctIds(s[..|s| - 1]) && s[|s| - 1].id !in Ids(s[..|s| - 1])
  {
    var init := s[..|s| - 1];
    forall p | p in init ensures p.id != s[|s| - 1].id {
      var k :| 0 <= k < |init| && init[k] == p;
      assert s[k] == p;
    }
  }

  /** Lexicographically first of the optimal index choices. */
  ghost predicate LexFirstOptimal(players: seq<Player>, need1: nat, c1: real, c2: real, choice: seq<nat>)
  {
    && IsChoice(choice, |players|, need1)
    && (forall c :: IsChoice(c, |players|, need1) ==>
          ComboSpread(players, c1, c2, Select(players, choice)) <= ComboSpread(players, c1, c2, Select(players, c)))
    && (forall c :: IsChoice(c, |players|, need1) && c != choice &&
          ComboSpread(players, c1, c2, Select(players, c)) == ComboSpread(players, c1, c2, Select(players, choice))
          ==> LexLess(choice, c))
  }

  /** Every way to choose `need1` players for team 1 is one of the exact
      search's candidates, and an admissible one. */
  lemma ChoiceListed(players: seq<Player>, need1: nat, need2: nat, c: seq<nat>) returns (i: nat)
    requires DistinctIds(players) && need1 + need2 == |players| && IsChoice(c, |players|, need1)
    ensures i < |IndexCombinations(|players|, need1)| && IndexCombinations(|players|, need1)[i] == c
    ensures i < |Combinations(players, need1)| && Combinations(players, need1)[i] == Select(players, c)
    ensures Admissible(players, need2, Combinations(players, need1)[i])
  {
    var idx := IndexCombinations(|players|, need1);
    IndexCombinationsExact(|players|, need1);
    assert c in idx;
    i :| 0 <= i < |idx| && idx[i] == c;
    ComplementSize(players, c);
  }

  /** The first best candidate has a spread no larger than any choice of
      `need1` players. */
  lemma ExactMinimal(players: seq<Player>, need1: nat, need2: nat, c1: real, c2: real, j: nat)
    requires DistinctIds(players) && need1 + need2 == |players|
    requires FirstBestAmong(players, Combinations(players, need1), |Combinations(players, need1)|, need2, c1, c2, j)
    ensures forall c :: IsChoice(c, |players|, need1) ==>
      ComboSpread(players, c1, c2, Combinations(players, need1)[j]) <= ComboSpread(players, c1, c2, Select(players, c))
  {
    forall c | IsChoice(c, |players|, need1)
      ensures ComboSpread(players, c1, c2, Combinations(players, need1)[j])
           <= ComboSpread(players, c1, c2, Select(players, c))
    {
      var i := ChoiceListed(players, need1, need2, c);
    }
  }

  /** Every other choice as good as the first best candidate comes after it
      in lexicographic order. */
  lemma ExactLexFirst(players: seq<Player>, need1: nat, need2: nat, c1: real, c2: real, j: nat)
    requires DistinctIds(players) && need1 + need2 == |players|
    requires FirstBestAmong(players, Combinations(players, need1), |Combinations(players, need1)|, need2, c1, c2, j)
    ensures var choice := IndexCombinations(|players|, need1)[j];
      forall c :: IsChoice(c, |players|, need1) && c != choice &&
        ComboSpread(players, c1, c2, Select(players, c)) == ComboSpread(players, c1, c2, Combinations(players, need1)[j])
        ==> LexLess(choice, c)
  {
    var idx := IndexCombinations(|players|, need1);
    var combos := Combinations(players, need1);
    IndexCombinationsExact(|players|, need1);
    var choice := idx[j];
    forall c | IsChoice(c, |players|, need1) && c != choice &&
               ComboSpread(players, c1, c2, Select(players, c)) == ComboSpread(players, c1, c2, combos[j])
      ensures LexLess(choice, c)
    {
      var i := ChoiceListed(players, need1, need2, c);
      assert i != j;
      assert j < i;
    }
  }

  /** The argument of `ExactOptimal`, for any outcome that is a first best
      admissible combination. */
  lemma ExactOutcomeOptimal(players: seq<Player>, need1: nat, need2: nat, c1: real, c2: real,
                            team1: seq<Player>, team2: seq<Player>)
    requires DistinctIds(players) && need1 + need2 == |players|
    requires ExactOutcome(players, need1, need2, c1, c2, team1, team2)
    ensures |team1| == need1 && |team2| == need2
    ensures multiset(team1) + multiset(team2) == multiset(players)
    ensures team2 == Complement(players, team1)
    ensures exists choice :: LexFirstOptimal(players, need1, c1, c2, choice) && team1 == Select(players, choice)
  {
    var n := |players|;
    var idx := IndexCombinations(n, need1);
    var combos := Combinations(players, need1);
    IndexCombinationsExact(n, need1);
    var first := ChoiceListed(players, need1, need2, Range(need1));
    var j: nat :| FirstBestAmong(players, combos, |combos|, need2, c1, c2, j)
             && team1 == combos[j] && team2 == Complement(players, combos[j]);
    var choice := idx[j];
    assert idx[j] in idx;
    SelectPartition(players, choice);
    ComplementSize(players, choice);
    assert team1 == Select(players, choice);
    ExactMinimal(players, need1, need2, c1, c2, j);
    ExactLexFirst(players, need1, need2, c1, c2, j);
    assert LexFirstOptimal(players, need1, c1, c2, choice);
  }

  /** For a valid request (distinct ids, `need1 + need2` equal to the pool
      size) the exact search splits the pool into parts of exactly `need1` and
      `need2` players, its spread is at most that of every way to choose
      `need1` players for team 1, and among the optimal choices it returns
      the lexicographically first by pool position. */
  lemma ExactOptimal(players: seq<Player>, need1: nat, need2: nat, c1: real, c2: real,
                     team1: seq<Player>, team2: seq<Player>)
    requires DistinctIds(players) && need1 + need2 == |players|
    requires (team1, team2) == ExactSplit(players, need1, need2, c1, c2)
    ensures |team1| == need1 && |team2| == need2
    ensures multiset(team1) + multiset(team2) == multiset(players)
    ensures team2 == Complement(players, team1)
    ensures exists choice :: LexFirstOptimal(players, need1, c1, c2, choice) && team1 == Select(players, choice)
  {
    ExactSplitOutcome(players, need1, need2, c1, c2);
    ExactOutcomeOptimal(players, need1, need2, c1, c2, team1, team2);
  }

  // ----- the greedy walk -----

  /** The state of the greedy loop: both parts and both running totals. */
  datatype Walk = Walk(team1: seq<Player>, team2: seq<Player>, total1: real, total2: real)

  /** One iteration of the greedy loop for player `p`. */
  function Assign(w: Walk, p: Player, need1: nat, need2: nat): Walk
  {
    if |w.team1| < need1 && |w.team2| < need2 then
      if w.total1 <= w.total2 then Walk(w.team1 + [p], w.team2, w.total1 + p.score, w.total2)
      else Walk(w.team1, w.team2 + [p], w.total1, w.total2 + p.score)
    else if |w.team1| < need1 then Walk(w.team1 + [p], w.team2, w.total1 + p.score, w.total2)
    else if |w.team2| < need2 then Walk(w.team1, w.team2 + [p], w.total1, w.total2 + p.score)
    else w
  }

  /** One step appends `p` to at most one part, and to one exactly when a
      part has room: to the part with the lower running total while both
      have room (team 1 on a tie), else to the one with room. Neither part
      outgrows its need and each running total stays the existing total plus
      the part's scores. */
  lemma AssignStep(w: Walk, p: Player, need1: nat, need2: nat)
    ensures var r := Assign(w, p, need1, need2);
      && (|w.team1| <= need1 && |w.team2| <= need2 ==> |r.team1| <= need1 && |r.team2| <= need2)
      && r.total1 - Total(r.team1) == w.total1 - Total(w.team1)
      && r.total2 - Total(r.team2) == w.total2 - Total(w.team2)
      && (r.team1 == w.team1 || r.team1 == w.team1 + [p]) && (r.team2 == w.team2 || r.team2 == w.team2 + [p])
      && (|w.team1| < need1 || |w.team2| < need2 <==> |r.team1| + |r.team2| == |w.team1| + |w.team2| + 1)
      && (|w.team1| < need1 || |w.team2| < need2 ==>
            multiset(r.team1) + multiset(r.team2) == multiset(w.team1) + multiset(w.team2) + multiset{p})
      && (|w.team1| < need1 && |w.team2| < need2 ==> (r.team1 == w.team1 + [p] <==> w.total1 <= w.total2))
      && (|w.team1| < need1 && |w.team2| >= need2 ==> r.team1 == w.team1 + [p])
      && (|w.team1| >= need1 && |w.team2| < need2 ==> r.team2 == w.team2 + [p])
  {
    TotalAppend(w.team1, [p]);
    TotalAppend(w.team2, [p]);
    var r := Assign(w, p, need1, need2);
    var room1, room2 := |w.team1| < need1, |w.team2| < need2;
    if (room1 && room2 && w.total1 <= w.total2) || (room1 && !room2) {
      assert r == Walk(w.team1 + [p], w.team2, w.total1 + p.score, w.total2);
      assert multiset(r.team1) == multiset(w.team1) + multiset{p};
    } else if room2 {
      assert r == Walk(w.team1, w.team2 + [p], w.total1, w.total2 + p.score);
      assert multiset(r.team2) == multiset(w.team2) + multiset{p};
    } else {
      assert r == w;
    }
  }

  /** The greedy loop run over `ps` from state `w`. */
  function WalkFrom(w: Walk, ps: seq<Player>, need1: nat, need2: nat): Walk
    decreases |ps|
  {
    if ps == [] then w else WalkFrom(Assign(w, ps[0], need1, need2), ps[1..], need1, need2)
  }

  /** Sort key of the greedy walk's comparator, which orders players by
      average score, highest first. */
  function ScoreKey(p: Player): real
  {
    -p.score
  }

  /** The greedy walk visits the whole pool, highest score first. */
  lemma GreedyOrder(players: seq<Player>)
    ensures var s := SortByKey(players, ScoreKey);
      && multiset(s) == multiset(players)
      && forall i, j :: 0 <= i < j < |s| ==> s[i].score >= s[j].score
  {
    var s := SortByKey(players, ScoreKey);
    forall i, j | 0 <= i < j < |s| ensures s[i].score >= s[j].score {
      assert ScoreKey(s[i]) <= ScoreKey(s[j]);
    }
  }

  /** The greedy split: the pool sorted by score, highest first, walked from
      two empty parts with the existing totals. */
  function GreedySplit(players: seq<Player>, need1: nat, need2: nat, c1: real, c2: real): Walk
  {
    WalkFrom(Walk([], [], c1, c2), SortByKey(players, ScoreKey), need1, need2)
  }

  /** Throughout the walk neither part exceeds its need, each running total
      is the existing total plus the part's scores, and parts only grow by
      appending. */
  lemma {:induction false} WalkInvariants(w: Walk, ps: seq<Player>, need1: nat, need2: nat)
    requires |w.team1| <= need1 && |w.team2| <= need2
    ensures var r := WalkFrom(w, ps, need1, need2);
      && |r.team1| <= need1 && |r.team2| <= need2
      && r.total1 - Total(r.team1) == w.total1 - Total(w.team1)
      && r.total2 - Total(r.team2) == w.total2 - Total(w.team2)
      && w.team1 <= r.team1 && w.team2 <= r.team2
    decreases |ps|
  {
    if ps != [] {
      AssignStep(w, ps[0], need1, need2);
      WalkInvariants(Assign(w, ps[0], need1, need2), ps[1..], need1, need2);
    }
  }

  /** When the remaining needs add up to the remaining players, every player
      lands in exactly one part and both parts end exactly full. */
  lemma {:induction false} WalkExhaustive(w: Walk, ps: seq<Player>, need1: nat, need2: nat)
    requires |w.team1| <= need1 && |w.team2| <= need2
    requires (need1 - |w.team1|) + (need2 - |w.team2|) == |ps|
    ensures var r := WalkFrom(w, ps, need1, need2);
      && |r.team1| == need1 && |r.team2| == need2
      && multiset(r.team1) + multiset(r.team2) == multiset(w.team1) + multiset(w.team2) + multiset(ps)
    decreases |ps|
  {
    if ps != [] {
      var w' := Assign(w, ps[0], need1, need2);
      AssignStep(w, ps[0], need1, need2);
      WalkExhaustive(w', ps[1..], need1, need2);
      assert ps == [ps[0]] + ps[1..];
    }
  }

  /** What `greedyBalance` returns: the exact search's split up to
      `ExactLimit` players, the greedy split beyond. */
  function BalanceSplit(players: seq<Player>, need1: nat, need2: nat, c1: real, c2: real): (seq<Player>, seq<Player>)
  {
    if |players| <= ExactLimit then ExactSplit(players, need1, need2, c1, c2)
    else
      var w := GreedySplit(players, need1, need2, c1, c2);
      (w.team1, w.team2)
  }

  /** `greedyBalance`: the exact search up to `ExactLimit` players, the greedy
      walk over the pool sorted by score, highest first, beyond. */
  method GreedyBalance(players: seq<Player>, need1: nat, need2: nat, c1: real, c2: real)
    returns (team1: seq<Player>, team2: seq<Player>)
    ensures (team1, team2) == BalanceSplit(players, need1, need2, c1, c2)
  {
    if |players| <= ExactLimit {
      team1, team2 := OptimalBalance(players, need1, need2, c1, c2);
      return;
    }
    var sorted := SortByKey(players, ScoreKey);
    team1, team2 := GreedyWalk(sorted, need1, need2, c1, c2);
  }

  /** The loop of `greedyBalance`: each player in turn joins the team with
      the lower running total while both have room (team 1 on a tie), and
      the team that still has room once the other is full. */
  method GreedyWalk(sorted: seq<Player>, need1: nat, need2: nat, c1: real, c2: real)
    returns (team1: seq<Player>, team2: seq<Player>)
    ensures var w := WalkFrom(Walk([], [], c1, c2), sorted, need1, need2);
      team1 == w.team1 && team2 == w.team2
  {
    team1, team2 := [], [];
    var total1, total2 := c1, c2;
    for k := 0 to |sorted|
      invariant WalkFrom(Walk(team1, team2, total1, total2), sorted[k..], need1, need2)
             == WalkFrom(Walk([], [], c1, c2), sorted, need1, need2)
    {
      ghost var w := Walk(team1, team2, total1, total2);
      var player := sorted[k];
      assert sorted[k..][0] == player && sorted[k..][1..] == sorted[k + 1..];
      if |team1| < need1 && |team2| < need2 {
        if total1 <= total2 {
          team1 := team1 + [player];
          total1 := total1 + player.score;
        } else {
          team2 := team2 + [player];
          total2 := total2 + player.score;
        }
      } else if |team1| < need1 {
        team1 := team1 + [player];
        total1 := total1 + player.score;
      } else if |team2| < need2 {
        team2 := team2 + [player];
        total2 := total2 + player.score;
      }
      assert Walk(team1, team2, total1, total2) == Assign(w, player, need1, need2);
    }
    assert sorted[|sorted|..] == [];
  }

  /** For a valid request (`need1 + need2` equal to the pool size, and
      distinct ids when the exact search runs) both strategies split the
      pool into parts of exactly `need1` and `need2` players. */
  lemma BalanceSplitParts(players: seq<Player>, need1: nat, need2: nat, c1: real, c2: real)
    requires need1 + need2 == |players| && (|players| > ExactLimit || DistinctIds(players))
    ensures var r := BalanceSplit(players, need1, need2, c1, c2);
      |r.0| == need1 && |r.1| == need2 && multiset(r.0) + multiset(r.1) == multiset(players)
  {
    if |players| <= ExactLimit {
      var r := ExactSplit(players, need1, need2, c1, c2);
      ExactOptimal(players, need1, need2, c1, c2, r.0, r.1);
    } else {
      WalkExhaustive(Walk([], [], c1, c2), SortByKey(players, ScoreKey), need1, need2);
    }
  }
}
