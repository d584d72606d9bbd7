/** Players of the balance page and the list operations over them: team
    totals, the id set of a roster and the id filter used to drop players. */
module Players {

  /** A rated player as the balance page holds it: the user id, the average
      score and whether the player is marked online. */
  datatype Player = Player(id: string, score: real, online: bool)

  /** Sum of the scores of a team (a left fold, as `reduce` computes it). */
  function Total(team: seq<Player>): real
  {
    if team == [] then 0.0 else Total(team[..|team| - 1]) + team[|team| - 1].score
  }

  /** The total of two rosters put one after the other is the sum of their totals. */
  lemma {:induction false} TotalAppend(a: seq<Player>, b: seq<Player>)
    ensures Total(a + b) == Total(a) + Total(b)
    decreases |b|
  {
    if b == [] {
      assert a + b == a;
    } else {
      assert (a + b)[..|a + b| - 1] == a + b[..|b| - 1];
      TotalAppend(a, b[..|b| - 1]);
    }
  }

  /** The set of user ids on a roster. */
  function Ids(s: seq<Player>): set<string>
  {
    set p | p in s :: p.id
  }

  /** No user id occurs twice (user ids are primary keys). */
  predicate DistinctIds(s: seq<Player>)
  {
    forall i, j :: 0 <= i < j < |s| ==> s[i].id != s[j].id
  }

  /** The players of `s` whose id is not in `ids`, in their original order
      (the array filter on user ids). */
  function WithoutIds(s: seq<Player>, ids: set<string>): seq<Player>
  {
    if s == [] then []
    else if s[|s| - 1].id in ids then WithoutIds(s[..|s| - 1], ids)
    else WithoutIds(s[..|s| - 1], ids) + [s[|s| - 1]]
  }

  /** The filter keeps exactly the players whose id is not dropped, each as
      often as it occurs. */
  lemma {:induction false} WithoutIdsMembers(s: seq<Player>, ids: set<string>)
    ensures forall p :: p in WithoutIds(s, ids) <==> p in s && p.id !in ids
    ensures multiset(WithoutIds(s, ids)) <= multiset(s)
    decreases |s|
  {
    if s != [] {
      WithoutIdsMembers(s[..|s| - 1], ids);
      assert s == s[..|s| - 1] + [s[|s| - 1]];
    }
  }

  /** Filtering keeps ids distinct. */
  lemma {:induction false} WithoutIdsDistinct(s: seq<Player>, ids: set<string>)
    requires DistinctIds(s)
    ensures DistinctIds(WithoutIds(s, ids))
    decreases |s|
  {
    if s != [] {
      var init := s[..|s| - 1];
      var last := s[|s| - 1];
      WithoutIdsDistinct(init, ids);
      WithoutIdsMembers(init, ids);
      forall p | p in WithoutIds(init, ids) ensures p.id != last.id {
        var k :| 0 <= k < |init| && init[k] == p;
        assert s[k] == p;
      }
    }
  }

  /** Dropping ids that no player of `s` carries changes nothing. */
  lemma {:induction false} WithoutIdsIgnoresAbsent(s: seq<Player>, ids: set<string>, extra: set<string>)
    requires Ids(s) !! extra
    ensures WithoutIds(s, ids + extra) == WithoutIds(s, ids)
    decreases |s|
  {
    if s != [] {
      assert s[|s| - 1] in s;
      assert Ids(s[..|s| - 1]) <= Ids(s) by {
        forall x | x in Ids(s[..|s| - 1]) ensures x in Ids(s) {
          var p :| p in s[..|s| - 1] && p.id == x;
          assert p in s;
        }
      }
      WithoutIdsIgnoresAbsent(s[..|s| - 1], ids, extra);
    }
  }
}
