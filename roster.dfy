/** The state of the balance page: every rated player with an online flag,
    the two teams being built and the pool of online players not yet on a
    team, with the page's operations on them. */
module Roster {
  import opened Options
  import opened Players
  import opened Balancer

  // ----- the lists the page derives -----

  /** The online players, in roster order. */
  function Online(s: seq<Player>): seq<Player>
  {
    if s == [] then []
    else if s[|s| - 1].online then Online(s[..|s| - 1]) + [s[|s| - 1]]
    else Online(s[..|s| - 1])
  }

  /** `Online` keeps exactly the online players and keeps ids distinct. */
  lemma {:induction false} OnlineMembers(s: seq<Player>)
    ensures forall p :: p in Online(s) <==> p in s && p.online
    ensures DistinctIds(s) ==> DistinctIds(Online(s))
    decreases |s|
  {
    if s != [] {
      var init, last := s[..|s| - 1], s[|s| - 1];
      OnlineMembers(init);
      assert s == init + [last];
      if DistinctIds(s) {
        forall p | p in Online(init) ensures p.id != last.id {
          var k :| 0 <= k < |init| && init[k] == p;
          assert s[k] == p;
        }
      }
    }
  }

  /** The pool the page keeps in sync: online players on neither team. */
  function AvailablePool(all: seq<Player>, t1: seq<Player>, t2: seq<Player>): seq<Player>
  {
    WithoutIds(Online(all), Ids(t1) + Ids(t2))
  }

  /** A player is in the pool exactly when it is an online player of the
      roster whose id is on neither team; the pool has distinct ids when the
      roster has. */
  lemma AvailableMembers(all: seq<Player>, t1: seq<Player>, t2: seq<Player>)
    ensures forall p :: p in AvailablePool(all, t1, t2) <==>
      p in all && p.online && p.id !in Ids(t1) && p.id !in Ids(t2)
    ensures DistinctIds(all) ==> DistinctIds(AvailablePool(all, t1, t2))
  {
    OnlineMembers(all);
    WithoutIdsMembers(Online(all), Ids(t1) + Ids(t2));
    if DistinctIds(all) {
      WithoutIdsDistinct(Online(all), Ids(t1) + Ids(t2));
    }
  }

  /** The pool has distinct ids when the roster has. */
  lemma PoolDistinct(all: seq<Player>, t1: seq<Player>, t2: seq<Player>)
    requires DistinctIds(all)
    ensures DistinctIds(AvailablePool(all, t1, t2))
  {
    AvailableMembers(all, t1, t2);
  }

  /** Filtering twice drops the union of the two id sets. */
  lemma {:induction false} WithoutIdsTwice(s: seq<Player>, a: set<string>, b: set<string>)
    ensures WithoutIds(WithoutIds(s, a), b) == WithoutIds(s, a + b)
    decreases |s|
  {
    if s != [] {
      var init, last := s[..|s| - 1], s[|s| - 1];
      WithoutIdsTwice(init, a, b);
      if last.id !in a {
        var w := WithoutIds(init, a) + [last];
        assert w[..|w| - 1] == WithoutIds(init, a);
      }
    }
  }

  /** Filtering by no id at all keeps everything. */
  lemma {:induction false} WithoutNoIds(s: seq<Player>)
    ensures WithoutIds(s, {}) == s
    decreases |s|
  {
    if s != [] {
      WithoutNoIds(s[..|s| - 1]);
      assert s == s[..|s| - 1] + [s[|s| - 1]];
    }
  }

  /** Ids of a roster with one more player. */
  lemma IdsAppend(s: seq<Player>, p: Player)
    ensures Ids(s + [p]) == Ids(s) + {p.id}
  {
    assert p in s + [p];
    forall x | x in Ids(s) ensures x in Ids(s + [p]) {
      var q :| q in s && q.id == x;
      assert q in s + [p];
    }
  }

  /** Putting `p` on a team takes exactly the players with `p`'s id out of
      the pool. */
  lemma PoolAfterJoin(all: seq<Player>, t1: seq<Player>, t2: seq<Player>, p: Player)
    ensures AvailablePool(all, t1 + [p], t2) == WithoutIds(AvailablePool(all, t1, t2), {p.id})
    ensures AvailablePool(all, t1, t2 + [p]) == WithoutIds(AvailablePool(all, t1, t2), {p.id})
  {
    IdsAppend(t1, p);
    IdsAppend(t2, p);
    WithoutIdsTwice(Online(all), Ids(t1) + Ids(t2), {p.id});
    assert Ids(t1 + [p]) + Ids(t2) == Ids(t1) + Ids(t2) + {p.id};
    assert Ids(t1) + Ids(t2 + [p]) == Ids(t1) + Ids(t2) + {p.id};
  }

  /** Filtering out every id that occurs leaves nothing. */
  lemma {:induction false} WithoutEveryId(s: seq<Player>, ids: set<string>)
    requires forall p :: p in s ==> p.id in ids
    ensures WithoutIds(s, ids) == []
    decreases |s|
  {
    if s != [] {
      assert s[|s| - 1] in s;
      forall p | p in s[..|s| - 1] ensures p.id in ids {
        assert p in s;
      }
      WithoutEveryId(s[..|s| - 1], ids);
    }
  }

  /** The ids of both parts of a concatenation are among its ids. */
  lemma IdsConcat(a: seq<Player>, b: seq<Player>)
    ensures Ids(a + b) == Ids(a) + Ids(b)
  {
    forall x | x in Ids(a + b) ensures x in Ids(a) + Ids(b) {
      var q :| q in a + b && q.id == x;
    }
    forall x | x in Ids(a) + Ids(b) ensures x in Ids(a + b) {
      if x in Ids(a) {
        var q :| q in a && q.id == x;
        assert q in a + b;
      } else {
        var q :| q in b && q.id == x;
        assert q in a + b;
      }
    }
  }

  /** Once the two parts a balance adds cover the pool, nothing is left. */
  lemma PoolExhausted(all: seq<Player>, t1: seq<Player>, t2: seq<Player>, a1: seq<Player>, a2: seq<Player>)
    requires multiset(a1) + multiset(a2) == multiset(AvailablePool(all, t1, t2))
    ensures AvailablePool(all, t1 + a1, t2 + a2) == []
  {
    var ids := Ids(t1 + a1) + Ids(t2 + a2);
    AvailableMembers(all, t1, t2);
    OnlineMembers(all);
    IdsConcat(t1, a1);
    IdsConcat(t2, a2);
    forall p | p in Online(all) ensures p.id in ids {
      if p.id !in Ids(t1) && p.id !in Ids(t2) {
        assert p in AvailablePool(all, t1, t2);
        assert p in multiset(a1) + multiset(a2);
        assert p in a1 || p in a2;
      }
    }
    WithoutEveryId(Online(all), ids);
  }

  // ----- roster-wide updates -----

  /** The first player with user id `id` (`allPlayers.find`). */
  function Find(s: seq<Player>, id: string): (r: Option<Player>)
    ensures r.None? <==> id !in Ids(s)
    ensures r.Some? ==> exists i :: 0 <= i < |s| && s[i] == r.value && r.value.id == id &&
                                     forall j :: 0 <= j < i ==> s[j].id != id
  {
    if s == [] then None
    else if s[0].id == id then
      assert s[0] in s;
      Some(s[0])
    else
      var r := Find(s[1..], id);
      IdsCons(s);
      if r.Some? then
        FirstMatchShift(s, id, r.value);
        r
      else r
  }

  /** The ids of a roster are its first player's id and the ids of the rest. */
  lemma IdsCons(s: seq<Player>)
    requires s != []
    ensures Ids(s) == {s[0].id} + Ids(s[1..])
  {
    assert s[0] in s;
    forall x | x in Ids(s) ensures x in {s[0].id} + Ids(s[1..]) {
      var q :| q in s && q.id == x;
      assert q == s[0] || q in s[1..];
    }
    forall x | x in Ids(s[1..]) ensures x in Ids(s) {
      var q :| q in s[1..] && q.id == x;
      assert q in s;
    }
  }

  /** A first match in the tail, behind a head of another id, is a first
      match in the whole roster. */
  lemma FirstMatchShift(s: seq<Player>, id: string, p: Player)
    requires s != [] && s[0].id != id
    requires exists i :: 0 <= i < |s[1..]| && s[1..][i] == p && p.id == id &&
                         forall j :: 0 <= j < i ==> s[1..][j].id != id
    ensures exists i :: 0 <= i < |s| && s[i] == p && p.id == id &&
                        forall j :: 0 <= j < i ==> s[j].id != id
  {
    var i :| 0 <= i < |s[1..]| && s[1..][i] == p && p.id == id &&
             forall j :: 0 <= j < i ==> s[1..][j].id != id;
    assert s[i + 1] == p;
    forall j | 0 <= j < i + 1 ensures s[j].id != id {
      if j > 0 {
        assert s[j] == s[1..][j - 1];
      }
    }
  }

  /** Two rosters that agree on the id at every position: same ids, and
      distinct ids in one means distinct ids in the other. */
  lemma SameIds(s: seq<Player>, r: seq<Player>)
    requires |r| == |s| && forall i :: 0 <= i < |s| ==> r[i].id == s[i].id
    ensures Ids(r) == Ids(s)
    ensures DistinctIds(r) <==> DistinctIds(s)
  {
    forall x | x in Ids(s) ensures x in Ids(r) {
      var p :| p in s && p.id == x;
      var i :| 0 <= i < |s| && s[i] == p;
      assert r[i] in r;
    }
    forall x | x in Ids(r) ensures x in Ids(s) {
      var p :| p in r && p.id == x;
      var i :| 0 <= i < |r| && r[i] == p;
      assert s[i] in s;
    }
  }

  /** Flips the online flag of the players with id `id`, leaving every other
      player as it is. */
  function Flip(s: seq<Player>, id: string): (r: seq<Player>)
    ensures |r| == |s|
    ensures forall i :: 0 <= i < |s| ==>
      r[i].id == s[i].id && r[i].score == s[i].score && (s[i].id != id ==> r[i] == s[i])
    ensures forall i :: 0 <= i < |s| && s[i].id == id ==> r[i].online != s[i].online
  {
    seq(|s|, i requires 0 <= i < |s| => if s[i].id == id then s[i].(online := !s[i].online) else s[i])
  }

  /** Toggling the same player twice restores the roster. */
  lemma FlipTwice(s: seq<Player>, id: string)
    ensures Flip(Flip(s, id), id) == s
  {
    var r := Flip(Flip(s, id), id);
    forall i | 0 <= i < |s| ensures r[i] == s[i] {
      assert r[i].online == s[i].online;
    }
  }

  /** Every player marked offline, nothing else changed (`resetAll`). */
  function AllOffline(s: seq<Player>): (r: seq<Player>)
    ensures |r| == |s|
    ensures forall i :: 0 <= i < |s| ==> r[i] == s[i].(online := false)
  {
    seq(|s|, i requires 0 <= i < |s| => s[i].(online := false))
  }

  /** A roster of offline players has no online player. */
  lemma {:induction false} OnlineNone(s: seq<Player>)
    requires forall p :: p in s ==> !p.online
    ensures Online(s) == []
    decreases |s|
  {
    if s != [] {
      assert s[|s| - 1] in s;
      forall p | p in s[..|s| - 1] ensures !p.online {
        assert p in s;
      }
      OnlineNone(s[..|s| - 1]);
    }
  }

  /** Nobody is online after `resetAll`. */
  lemma {:induction false} AllOfflineEmpty(s: seq<Player>)
    ensures Online(AllOffline(s)) == []
  {
    forall p | p in AllOffline(s) ensures !p.online {
      var i :| 0 <= i < |s| && AllOffline(s)[i] == p;
    }
    OnlineNone(AllOffline(s));
  }

  // ----- the online set kept across reloads -----

  /** The ids saved in session storage: the online players' ids, in order. */
  function OnlineIds(s: seq<Player>): (r: seq<string>)
    ensures |r| == |Online(s)|
    ensures forall i :: 0 <= i < |r| ==> r[i] == Online(s)[i].id
  {
    var on := Online(s);
    seq(|on|, i requires 0 <= i < |on| => on[i].id)
  }

  /** The roster as loaded: each rated player is online when its id was
      saved, or when nothing (an empty list) was saved. */
  function Restore(ratings: seq<Player>, saved: seq<string>): (r: seq<Player>)
    ensures |r| == |ratings|
    ensures forall i :: 0 <= i < |r| ==> r[i].id == ratings[i].id && r[i].score == ratings[i].score
    ensures forall i :: 0 <= i < |r| ==> (r[i].online <==> saved == [] || ratings[i].id in saved)
  {
    seq(|ratings|, i requires 0 <= i < |ratings| =>
      ratings[i].(online := if |saved| > 0 then ratings[i].id in saved else true))
  }

  /** Saving the online ids and loading them back gives the same roster
      exactly when somebody was online: with everybody offline an empty list
      is saved, and loading an empty list marks everybody online. */
  lemma RestoreRoundTrip(s: seq<Player>)
    requires DistinctIds(s) && s != []
    ensures Restore(s, OnlineIds(s)) == s <==> Online(s) != []
  {
    var saved := OnlineIds(s);
    var r := Restore(s, saved);
    OnlineMembers(s);
    if Online(s) == [] {
      assert s[0] in s;
      assert r[0].online && !s[0].online;
    } else {
      forall i | 0 <= i < |s| ensures r[i] == s[i] {
        if s[i].online {
          assert s[i] in Online(s);
          var j :| 0 <= j < |Online(s)| && Online(s)[j] == s[i];
          assert saved[j] == s[i].id;
        }
        if s[i].id in saved {
          var j :| 0 <= j < |saved| && saved[j] == s[i].id;
          var q := Online(s)[j];
          assert q in Online(s);
          var k :| 0 <= k < |s| && s[k] == q;
          assert k == i;
        }
      }
    }
  }

  // ----- the page -----

  /** What `balanceTeams` did: one of its three refusals, or the two gaps it
      filled and the two parts it added to the teams. */
  datatype Outcome =
    | NothingToBalance
    | Overfilled
    | Mismatch(need: int, have: nat)
    | Balanced(need1: nat, need2: nat, added1: seq<Player>, added2: seq<Player>)

  class BalancePage {
    var allPlayers: seq<Player>
    var team1: seq<Player>
    var team2: seq<Player>
    var available: seq<Player>

    /** The user ids are distinct and the pool is in sync with the roster
        and the teams (the page's synchronising effect). */
    ghost predicate Valid()
      reads this
    {
      DistinctIds(allPlayers) && available == AvailablePool(allPlayers, team1, team2)
    }

    /** `loadPlayers` with the rated players and the ids saved in session
        storage. */
    constructor (ratings: seq<Player>, saved: seq<string>)
      requires DistinctIds(ratings)
      ensures Valid()
      ensures allPlayers == Restore(ratings, saved) && team1 == [] && team2 == []
    {
      var all := Restore(ratings, saved);
      SameIds(ratings, all);
      allPlayers := all;
      team1, team2 := [], [];
      available := AvailablePool(all, [], []);
    }

    /** `toggleOnline`: an unknown id changes nothing; otherwise the player's
        flag flips, and a player going offline leaves both teams. */
    method ToggleOnline(id: string)
      requires Valid()
      modifies this
      ensures Valid()
      ensures id !in Ids(old(allPlayers)) ==>
        allPlayers == old(allPlayers) && team1 == old(team1) && team2 == old(team2)
      ensures id in Ids(old(allPlayers)) ==> allPlayers == Flip(old(allPlayers), id)
      ensures Find(old(allPlayers), id).Some? && Find(old(allPlayers), id).value.online ==>
        team1 == WithoutIds(old(team1), {id}) && team2 == WithoutIds(old(team2), {id})
      ensures !(Find(old(allPlayers), id).Some? && Find(old(allPlayers), id).value.online) ==>
        team1 == old(team1) && team2 == old(team2)
    {
      var player := Find(allPlayers, id);
      if player.None? {
        return;
      }
      if player.value.online {
        team1 := WithoutIds(team1, {id});
        team2 := WithoutIds(team2, {id});
      }
      var all := Flip(allPlayers, id);
      SameIds(allPlayers, all);
      allPlayers := all;
      available := AvailablePool(allPlayers, team1, team2);
    }

    /** `moveToTeam1`: the player joins the end of team 1. */
    method MoveToTeam1(p: Player)
      requires Valid()
      modifies this
      ensures Valid()
      ensures team1 == old(team1) + [p] && team2 == old(team2) && allPlayers == old(allPlayers)
      ensures available == WithoutIds(old(available), {p.id})
    {
      PoolAfterJoin(allPlayers, team1, team2, p);
      team1 := team1 + [p];
      available := AvailablePool(allPlayers, team1, team2);
    }

    /** `moveToTeam2`: the player joins the end of team 2. */
    method MoveToTeam2(p: Player)
      requires Valid()
      modifies this
      ensures Valid()
      ensures team2 == old(team2) + [p] && team1 == old(team1) && allPlayers == old(allPlayers)
      ensures available == WithoutIds(old(available), {p.id})
    {
      PoolAfterJoin(allPlayers, team1, team2, p);
      team2 := team2 + [p];
      available := AvailablePool(allPlayers, team1, team2);
    }

    /** `removeFromTeam1`: every player with `p`'s id leaves team 1. */
    method RemoveFromTeam1(p: Player)
      requires Valid()
      modifies this
      ensures Valid()
      ensures team1 == WithoutIds(old(team1), {p.id}) && team2 == old(team2) && allPlayers == old(allPlayers)
    {
      team1 := WithoutIds(team1, {p.id});
      available := AvailablePool(allPlayers, team1, team2);
    }

    /** `removeFromTeam2`: every player with `p`'s id leaves team 2. */
    method RemoveFromTeam2(p: Player)
      requires Valid()
      modifies this
      ensures Valid()
      ensures team2 == WithoutIds(old(team2), {p.id}) && team1 == old(team1) && allPlayers == old(allPlayers)
    {
      team2 := WithoutIds(team2, {p.id});
      available := AvailablePool(allPlayers, team1, team2);
    }

    /** `resetAll`: both teams emptied and everybody offline, so the pool is
        empty too. */
    method ResetAll()
      requires Valid()
      modifies this
      ensures Valid()
      ensures team1 == [] && team2 == [] && allPlayers == AllOffline(old(allPlayers))
      ensures available == []
    {
      var all := AllOffline(allPlayers);
      SameIds(allPlayers, all);
      AllOfflineEmpty(allPlayers);
      allPlayers := all;
      team1, team2 := [], [];
      available := AvailablePool(allPlayers, team1, team2);
    }

    /** `resetTeams`: both teams emptied, every online player back in the
        pool. */
    method ResetTeams()
      requires Valid()
      modifies this
      ensures Valid()
      ensures team1 == [] && team2 == [] && allPlayers == old(allPlayers)
      ensures available == Online(allPlayers)
    {
      team1, team2 := [], [];
      WithoutNoIds(Online(allPlayers));
      assert Ids([]) + Ids([]) == {};
      available := AvailablePool(allPlayers, team1, team2);
    }

    /** `balanceTeams`: team 1 is to end with half the online players
        (rounded down) and team 2 with the rest. When `Refusal` refuses,
        nothing changes. Otherwise the pool is split by `greedyBalance`
        against the teams' current totals, each part is appended to its team
        and the pool is empty. */
    method BalanceTeams() returns (outcome: Outcome)
      requires Valid()
      modifies this
      ensures Valid()
      ensures allPlayers == old(allPlayers)
      ensures var refusal := Refusal(|Online(allPlayers)|, |old(team1)|, |old(team2)|, |old(available)|);
        && (refusal.Some? ==> outcome == refusal.value)
        && (refusal.None? <==> outcome.Balanced?)
      ensures !outcome.Balanced? ==> team1 == old(team1) && team2 == old(team2) && available == old(available)
      ensures outcome.Balanced? ==>
        && team1 == old(team1) + outcome.added1 && team2 == old(team2) + outcome.added2
        && |team1| == |Online(allPlayers)| / 2
        && |team2| == |Online(allPlayers)| - |Online(allPlayers)| / 2
        && multiset(outcome.added1) + multiset(outcome.added2) == multiset(old(available))
        && available == []
      ensures outcome.Balanced? ==>
        && outcome.need1 == |Online(allPlayers)| / 2 - |old(team1)|
        && outcome.need2 == |Online(allPlayers)| - |Online(allPlayers)| / 2 - |old(team2)|
        && (outcome.added1, outcome.added2)
             == BalanceSplit(old(available), outcome.need1, outcome.need2, Total(old(team1)), Total(old(team2)))
    {
      var n := |Online(allPlayers)|;
      var refusal := Refusal(n, |team1|, |team2|, |available|);
      if refusal.Some? {
        return refusal.value;
      }
      var need1, need2 := n / 2 - |team1|, n - n / 2 - |team2|;
      PoolDistinct(allPlayers, team1, team2);
      var added1, added2 := GreedyBalance(available, need1, need2, Total(team1), Total(team2));
      BalanceSplitParts(available, need1, need2, Total(team1), Total(team2));
      ApplySplit(added1, added2);
      outcome := Balanced(need1, need2, added1, added2);
    }

    /** The last step of `balanceTeams`: each part is appended to its team
        and the pool, which the two parts cover, is emptied. */
    method ApplySplit(added1: seq<Player>, added2: seq<Player>)
      requires Valid() && multiset(added1) + multiset(added2) == multiset(available)
      modifies this
      ensures Valid()
      ensures allPlayers == old(allPlayers) && available == []
      ensures team1 == old(team1) + added1 && team2 == old(team2) + added2
    {
      var all, t1, t2 := allPlayers, team1, team2;
      PoolExhausted(all, t1, t2, added1, added2);
      team1, team2, available := t1 + added1, t2 + added2, [];
    }
  }

  /** The three refusals of `balanceTeams`, checked in its order, for
      `online` online players, teams of `size1` and `size2` players and a
      pool of `pool` players: an empty pool; a team already past its size
      (half the online players, rounded down, for team 1, the rest for
      team 2); a pool that does not fill both gaps exactly. */
  function Refusal(online: nat, size1: nat, size2: nat, pool: nat): (r: Option<Outcome>)
    ensures r == Some(NothingToBalance) <==> pool == 0
    ensures r == Some(Overfilled) <==> pool > 0 && (size1 > online / 2 || size2 > online - online / 2)
    ensures r.Some? && r.value.Mismatch? <==>
      pool > 0 && size1 <= online / 2 && size2 <= online - online / 2 && online - size1 - size2 != pool
    ensures r.Some? && r.value.Mismatch? ==> r.value == Mismatch(online - size1 - size2, pool)
    ensures r.None? <==>
      pool > 0 && size1 <= online / 2 && size2 <= online - online / 2 && size1 + size2 + pool == online
    ensures r.Some? ==> !r.value.Balanced?
  {
    var need1 := online / 2 - size1;
    var need2 := online - online / 2 - size2;
    if pool == 0 then Some(NothingToBalance)
    else if need1 < 0 || need2 < 0 then Some(Overfilled)
    else if need1 + need2 != pool then Some(Mismatch(need1 + need2, pool))
    else None
  }

  // ----- rank titles -----

  /** The five rank titles of `getRankTitle`, best first. */
  datatype Rank = King | Vizier | Commander | Woodcutter | Trash
  {
    /** The title shown on the page. */
    function Title(): string
    {
      match this
      case King => "Kral"
      case Vizier => "Vezir"
      case Commander => "Komutan"
      case Woodcutter => "Oduncu"
      case Trash => "\U{00C7}\U{00F6}p"
    }

    /** The badge colour class. */
    function Color(): string
    {
      match this
      case King => "bg-green-600"
      case Vizier => "bg-blue-600"
      case Commander => "bg-yellow-600"
      case Woodcutter => "bg-orange-600"
      case Trash => "bg-red-700"
    }

    /** Position on the ladder, 0 for the lowest rank. */
    function Level(): nat
    {
      match this
      case Trash => 0
      case Woodcutter => 1
      case Commander => 2
      case Vizier => 3
      case King => 4
    }
  }

  /** `getRankTitle`: the rank of an average score, by the thresholds 8.5,
      7, 5 and 2.5, each inclusive. */
  function RankOf(score: real): (r: Rank)
    ensures r == King <==> 8.5 <= score
    ensures r == Vizier <==> 7.0 <= score < 8.5
    ensures r == Commander <==> 5.0 <= score < 7.0
    ensures r == Woodcutter <==> 2.5 <= score < 5.0
    ensures r == Trash <==> score < 2.5
  {
    if score >= 8.5 then King
    else if score >= 7.0 then Vizier
    else if score >= 5.0 then Commander
    else if score >= 2.5 then Woodcutter
    else Trash
  }

  /** A higher score never earns a lower rank. */
  lemma RankMonotone(a: real, b: real)
    requires a <= b
    ensures RankOf(a).Level() <= RankOf(b).Level()
  {
  }
}
