/** The score timeline page: the time range and bucket width, the replay of
    the vote history into per-player averages bucket by bucket
    (`calculateTimeline`), the per-player summary (`calculatePlayerStats`),
    and the capped selection with its colours (`togglePlayer`,
    `getPlayerColor`). Times are integer milliseconds. */
module Timeline {
  import opened Options
  import opened Sorting
  import opened Durations

  function Min(a: int, b: int): int
  {
    if a < b then a else b
  }

  function Max(a: int, b: int): int
  {
    if a > b then a else b
  }

  // ----- time range -----

  /** The four selectable ranges `'1d' | '1w' | '1m' | '3m'`. */
  datatype TimeRange = OneDay | OneWeek | OneMonth | ThreeMonths
  {
    /** How many days back the range reaches. */
    function Days(): nat
    {
      match this
      case OneDay => 1
      case OneWeek => 7
      case OneMonth => 30
      case ThreeMonths => 90
    }

    /** `getBucketSize`: 2 hours, 6 hours, 1 day or 3 days; never zero, so
        the bucket loop always moves on. */
    function BucketSize(): (r: nat)
      ensures r > 0
    {
      match this
      case OneDay => 2 * HourMs
      case OneWeek => 6 * HourMs
      case OneMonth => DayMs
      case ThreeMonths => 3 * DayMs
    }
  }

  /** `getTimeRangeDate(range)` at clock reading `now`. */
  function RangeStart(range: TimeRange, now: int): int
  {
    now - range.Days() * DayMs
  }

  // ----- votes and tallies -----

  /** A vote of `voter` for `target`: a `vote_history` row (with its time), or
      a current `votes` row used as the baseline (its time is not used). */
  datatype Vote = Vote(voter: string, target: string, score: real, at: int)

  /** One entry of a player's `voter -> score` map. */
  datatype Ballot = Ballot(voter: string, score: real)

  /** The time the history is sorted by. */
  function VoteTime(v: Vote): real
  {
    v.at as real
  }

  /** The score `voter` has in a player's map (`Map.get`). */
  function Lookup(t: seq<Ballot>, voter: string): Option<real>
  {
    if t == [] then None
    else if t[0].voter == voter then Some(t[0].score)
    else Lookup(t[1..], voter)
  }

  /** Setting a voter's score in an insertion-ordered map: an existing voter
      keeps its place and gets the new score, a new voter goes at the end. */
  function SetVote(t: seq<Ballot>, voter: string, score: real): seq<Ballot>
  {
    if t == [] then [Ballot(voter, score)]
    else if t[0].voter == voter then [Ballot(voter, score)] + t[1..]
    else [t[0]] + SetVote(t[1..], voter, score)
  }

  /** After `set`, the voter has the new score and every other voter keeps
      theirs; the voters keep their order, and the map grows exactly when the
      voter is new. */
  lemma {:induction false} SetVoteLookup(t: seq<Ballot>, voter: string, score: real)
    ensures var r := SetVote(t, voter, score);
            && |r| == (if Lookup(t, voter).Some? then |t| else |t| + 1)
            && (forall i :: 0 <= i < |t| ==> r[i].voter == t[i].voter)
            && forall w :: Lookup(r, w) == if w == voter then Some(score) else Lookup(t, w)
    decreases |t|
  {
    if t != [] && t[0].voter != voter {
      SetVoteLookup(t[1..], voter, score);
      var r := SetVote(t, voter, score);
      assert r[1..] == SetVote(t[1..], voter, score);
    }
  }

  /** One `voter -> score` map per selected player (`currentVotes`). */
  type Tallies = map<string, seq<Ballot>>

  /** Replaying one vote: players that are not tracked ignore it. */
  function Apply(ts: Tallies, v: Vote): Tallies
  {
    if v.target in ts then ts[v.target := SetVote(ts[v.target], v.voter, v.score)] else ts
  }

  /** Replaying the entries `s[lo..hi]` in order (by position, so that the
      bucket loop can walk `historyIndex` forward). */
  function ApplyRange(ts: Tallies, s: seq<Vote>, lo: nat, hi: nat): (r: Tallies)
    requires lo <= hi <= |s|
    ensures r.Keys == ts.Keys
    decreases hi - lo
  {
    if hi == lo then ts else Apply(ApplyRange(ts, s, lo, hi - 1), s[hi - 1])
  }

  /** Replaying `lo..mid` and then `mid..hi` is replaying `lo..hi`. */
  lemma {:induction false} ApplyRangeSplit(ts: Tallies, s: seq<Vote>, lo: nat, mid: nat, hi: nat)
    requires lo <= mid <= hi <= |s|
    ensures ApplyRange(ApplyRange(ts, s, lo, mid), s, mid, hi) == ApplyRange(ts, s, lo, hi)
    decreases hi - mid
  {
    if hi > mid {
      ApplyRangeSplit(ts, s, lo, mid, hi - 1);
    }
  }

  /** The score of the last vote of `voter` for `target` among `s[lo..hi]`. */
  function LastVote(s: seq<Vote>, lo: nat, hi: nat, target: string, voter: string): Option<real>
    requires lo <= hi <= |s|
    decreases hi - lo
  {
    if hi == lo then None
    else if s[hi - 1].target == target && s[hi - 1].voter == voter then Some(s[hi - 1].score)
    else LastVote(s, lo, hi - 1, target, voter)
  }

  /** Last write wins: after a replay, a tracked player's map holds for each
      voter the score of that voter's last vote, or the score it had before
      when the voter did not vote again. */
  lemma {:induction false} ReplayLastWins(ts: Tallies, s: seq<Vote>, lo: nat, hi: nat, target: string, voter: string)
    requires lo <= hi <= |s| && target in ts
    ensures target in ApplyRange(ts, s, lo, hi)
    ensures Lookup(ApplyRange(ts, s, lo, hi)[target], voter)
         == if LastVote(s, lo, hi, target, voter).Some? then LastVote(s, lo, hi, target, voter)
            else Lookup(ts[target], voter)
    decreases hi - lo
  {
    if hi > lo {
      ReplayLastWins(ts, s, lo, hi - 1, target, voter);
      var v := s[hi - 1];
      var before := ApplyRange(ts, s, lo, hi - 1);
      if v.target == target {
        SetVoteLookup(before[target], v.voter, v.score);
      }
    }
  }

  /** An empty voter map for each selected player, built by the first
      seeding loop. */
  function EmptyTallies(ids: seq<string>): (r: Tallies)
    ensures forall id :: id in r <==> id in ids
    ensures forall id :: id in r ==> r[id] == []
  {
    if ids == [] then map[] else EmptyTallies(ids[..|ids| - 1])[ids[|ids| - 1] := []]
  }

  /** The maps once the baseline votes are in. */
  function Seed(ids: seq<string>, baseline: seq<Vote>): Tallies
  {
    ApplyRange(EmptyTallies(ids), baseline, 0, |baseline|)
  }

  /** The seeding loops at the top of `calculateTimeline`. */
  method SeedTallies(ids: seq<string>, baseline: seq<Vote>) returns (ts: Tallies)
    ensures ts == Seed(ids, baseline)
  {
    ts := map[];
    for i := 0 to |ids|
      invariant ts == EmptyTallies(ids[..i])
    {
      assert ids[..i + 1][..i] == ids[..i];
      ts := ts[ids[i] := []];
    }
    assert ids[..|ids|] == ids;
    for i := 0 to |baseline|
      invariant ts == ApplyRange(EmptyTallies(ids), baseline, 0, i)
    {
      var vote := baseline[i];
      if vote.target in ts {
        ts := ts[vote.target := SetVote(ts[vote.target], vote.voter, vote.score)];
      }
    }
  }

  // ----- one bucket -----

  /** Where `historyIndex` stops when the entries up to `limit` are applied
      from index `k`. */
  function Consume(sorted: seq<Vote>, k: nat, limit: int): (r: nat)
    requires k <= |sorted|
    ensures k <= r <= |sorted|
    decreases |sorted| - k
  {
    if k == |sorted| || sorted[k].at > limit then k else Consume(sorted, k + 1, limit)
  }

  /** `historyIndex` stops at the first entry from `k` on that is later than
      `limit`, or at the end. */
  lemma {:induction false} ConsumeStops(sorted: seq<Vote>, k: nat, limit: int)
    requires k <= |sorted|
    ensures var r := Consume(sorted, k, limit);
            (forall i :: k <= i < r ==> sorted[i].at <= limit) && (r < |sorted| ==> sorted[r].at > limit)
    decreases |sorted| - k
  {
    if k < |sorted| && sorted[k].at <= limit {
      ConsumeStops(sorted, k + 1, limit);
    }
  }

  /** On a time-sorted history, the entries left after a bucket are exactly
      those later than its end. */
  lemma ConsumeSorted(sorted: seq<Vote>, k: nat, limit: int)
    requires k <= |sorted| && Ascending(sorted, VoteTime)
    ensures forall i :: Consume(sorted, k, limit) <= i < |sorted| ==> sorted[i].at > limit
  {
    var r := Consume(sorted, k, limit);
    ConsumeStops(sorted, k, limit);
    forall i | r <= i < |sorted| ensures sorted[i].at > limit {
      assert VoteTime(sorted[r]) <= VoteTime(sorted[i]);
    }
  }

  /** Applying up to a later limit in two steps goes just as far as in one. */
  lemma {:induction false} ConsumeCompose(sorted: seq<Vote>, k: nat, l1: int, l2: int)
    requires k <= |sorted| && l1 <= l2
    ensures Consume(sorted, Consume(sorted, k, l1), l2) == Consume(sorted, k, l2)
    decreases |sorted| - k
  {
    if k < |sorted| && sorted[k].at <= l1 {
      ConsumeCompose(sorted, k + 1, l1, l2);
    }
  }

  /** The inner `while` loop of `calculateTimeline`: apply the entries from
      `historyIndex` on that are not later than `bucketEnd`. */
  method ApplyBucket(sorted: seq<Vote>, historyIndex: nat, ts: Tallies, bucketEnd: int)
    returns (next: nat, ts': Tallies)
    requires historyIndex <= |sorted|
    ensures next == Consume(sorted, historyIndex, bucketEnd)
    ensures ts' == ApplyRange(ts, sorted, historyIndex, next)
  {
    next, ts' := historyIndex, ts;
    while next < |sorted|
      invariant historyIndex <= next <= |sorted|
      invariant Consume(sorted, next, bucketEnd) == Consume(sorted, historyIndex, bucketEnd)
      invariant ts' == ApplyRange(ts, sorted, historyIndex, next)
      decreases |sorted| - next
    {
      var vote := sorted[next];
      if vote.at <= bucketEnd {
        ghost var before := ts';
        if vote.target in ts' {
          ts' := ts'[vote.target := SetVote(ts'[vote.target], vote.voter, vote.score)];
        }
        assert ts' == Apply(before, vote);
        next := next + 1;
      } else {
        break;
      }
    }
  }

  // ----- data points -----

  /** A data point: its time and the average of every selected player that
      has votes at that time (the `date` label is not modelled). */
  datatype Point = Point(timestamp: int, values: map<string, real>)

  function SumScores(t: seq<Ballot>): real
  {
    if |t| == 0 then 0.0 else SumScores(t[..|t| - 1]) + t[|t| - 1].score
  }

  /** The mean of a player's current scores. */
  function Average(t: seq<Ballot>): real
    requires |t| > 0
  {
    SumScores(t) / (|t| as real)
  }

  /** The averages of the players of `ids` that have at least one vote. */
  function Values(ts: Tallies, ids: seq<string>): map<string, real>
  {
    if |ids| == 0 then map[]
    else
      var v := Values(ts, ids[..|ids| - 1]);
      var id := ids[|ids| - 1];
      if id in ts && |ts[id]| > 0 then v[id := Average(ts[id])] else v
  }

  /** `hasData`: some player of `ids` has at least one vote. */
  function HasVotes(ts: Tallies, ids: seq<string>): bool
  {
    |ids| > 0 && (HasVotes(ts, ids[..|ids| - 1]) || (ids[|ids| - 1] in ts && |ts[ids[|ids| - 1]]| > 0))
  }

  /** A point holds the average of exactly the selected players who have
      votes, and it has data exactly when one of them has. */
  lemma {:induction false} ValuesMembers(ts: Tallies, ids: seq<string>)
    ensures var v := Values(ts, ids);
            (forall id :: id in v <==> id in ids && id in ts && |ts[id]| > 0)
            && (forall id :: id in v ==> v[id] == Average(ts[id]))
            && (HasVotes(ts, ids) <==> exists id :: id in ids && id in ts && |ts[id]| > 0)
    decreases |ids|
  {
    if ids != [] {
      ValuesMembers(ts, ids[..|ids| - 1]);
      assert forall id :: id in ids <==> id in ids[..|ids| - 1] || id == ids[|ids| - 1];
    }
  }

  /** The point of one bucket, when at least one selected player has votes. */
  function PointAt(ts: Tallies, ids: seq<string>, at: int): Option<Point>
  {
    if HasVotes(ts, ids) then Some(Point(at, Values(ts, ids))) else None
  }

  /** A bucket has a point exactly when some selected player has votes; the
      point is stamped with the bucket's end and is not empty. */
  lemma PointAtSome(ts: Tallies, ids: seq<string>, at: int)
    ensures PointAt(ts, ids, at).Some? <==> exists id :: id in ids && id in ts && |ts[id]| > 0
    ensures PointAt(ts, ids, at).Some? ==>
              PointAt(ts, ids, at).value.timestamp == at && PointAt(ts, ids, at).value.values != map[]
  {
    ValuesMembers(ts, ids);
    if HasVotes(ts, ids) {
      var id :| id in ids && id in ts && |ts[id]| > 0;
      assert id in Values(ts, ids);
    }
  }

  /** The `forEach` that fills one point and sets `hasData`. */
  method BuildPoint(ts: Tallies, ids: seq<string>, bucketEnd: int) returns (hasData: bool, point: Point)
    requires forall id :: id in ids ==> id in ts
    ensures hasData <==> PointAt(ts, ids, bucketEnd).Some?
    ensures hasData ==> point == PointAt(ts, ids, bucketEnd).value
  {
    point := Point(bucketEnd, map[]);
    hasData := false;
    for i := 0 to |ids|
      invariant point == Point(bucketEnd, Values(ts, ids[..i]))
      invariant hasData == HasVotes(ts, ids[..i])
    {
      assert ids[..i + 1][..i] == ids[..i];
      var votes := ts[ids[i]];
      if |votes| > 0 {
        point := point.(values := point.values[ids[i] := Average(votes)]);
        hasData := true;
      }
    }
    assert ids[..|ids|] == ids;
  }

  // ----- the bucketed replay -----

  /** Where the replay stands: the points so far, `historyIndex`, and the maps. */
  datatype Replay = Replay(points: seq<Point>, cursor: nat, tallies: Tallies)

  /** The bucket loop from `bucketStart` on: apply the entries up to the
      bucket's end, emit a point if anybody has votes, move one bucket on. */
  function Run(sorted: seq<Vote>, k: nat, ts: Tallies, bucketStart: int, size: nat, endDate: int,
               ids: seq<string>): Replay
    requires k <= |sorted| && size > 0
    decreases endDate - bucketStart
  {
    if bucketStart > endDate then Replay([], k, ts)
    else
      var bucketEnd := Min(bucketStart + size, endDate);
      var next := Consume(sorted, k, bucketEnd);
      var ts' := ApplyRange(ts, sorted, k, next);
      var pt := PointAt(ts', ids, bucketEnd);
      var rest := Run(sorted, next, ts', bucketStart + size, size, endDate, ids);
      Replay((if pt.Some? then [pt.value] else []) + rest.points, rest.cursor, rest.tallies)
  }

  /** One step of the bucket loop: the cursor and maps after the bucket, and
      its point if it has one, followed by the rest of the replay. */
  lemma RunStep(sorted: seq<Vote>, k: nat, ts: Tallies, bucketStart: int, size: nat, endDate: int,
                ids: seq<string>, next: nat, ts': Tallies, hasData: bool, point: Point)
    requires k <= |sorted| && size > 0 && bucketStart <= endDate
    requires next == Consume(sorted, k, Min(bucketStart + size, endDate))
    requires ts' == ApplyRange(ts, sorted, k, next)
    requires hasData <==> PointAt(ts', ids, Min(bucketStart + size, endDate)).Some?
    requires hasData ==> point == PointAt(ts', ids, Min(bucketStart + size, endDate)).value
    ensures Run(sorted, k, ts, bucketStart, size, endDate, ids).points
            == (if hasData then [point] else []) + Run(sorted, next, ts', bucketStart + size, size, endDate, ids).points
  {
  }

  predicate StampsWithin(points: seq<Point>, lo: int, hi: int)
  {
    forall i :: 0 <= i < |points| ==> lo <= points[i].timestamp <= hi
  }

  predicate StampsNondecreasing(points: seq<Point>)
  {
    forall i, j :: 0 <= i < j < |points| ==> points[i].timestamp <= points[j].timestamp
  }

  /** The three claims `RunStamps` makes about a list of points. */
  predicate WellStamped(points: seq<Point>, lo: int, hi: int)
  {
    StampsWithin(points, lo, hi) && StampsNondecreasing(points)
    && forall i :: 0 <= i < |points| ==> points[i].values != map[]
  }

  /** Every point of the replay is nonempty, is stamped between the first
      bucket's start and `endDate`, and the stamps never decrease. */
  lemma {:induction false} RunStamps(sorted: seq<Vote>, k: nat, ts: Tallies, bucketStart: int, size: nat,
                                     endDate: int, ids: seq<string>)
    requires k <= |sorted| && size > 0
    ensures WellStamped(Run(sorted, k, ts, bucketStart, size, endDate, ids).points, bucketStart, endDate)
    decreases endDate - bucketStart
  {
    if bucketStart <= endDate {
      var next := Consume(sorted, k, Min(bucketStart + size, endDate));
      RunStamps(sorted, next, ApplyRange(ts, sorted, k, next), bucketStart + size, size, endDate, ids);
      RunStampsStep(sorted, k, ts, bucketStart, size, endDate, ids);
    }
  }

  /** One bucket of `RunStamps`, given the claim for the buckets after it. */
  lemma RunStampsStep(sorted: seq<Vote>, k: nat, ts: Tallies, bucketStart: int, size: nat,
                      endDate: int, ids: seq<string>)
    requires k <= |sorted| && size > 0 && bucketStart <= endDate
    requires var next := Consume(sorted, k, Min(bucketStart + size, endDate));
             WellStamped(Run(sorted, next, ApplyRange(ts, sorted, k, next), bucketStart + size, size, endDate, ids).points,
                         bucketStart + size, endDate)
    ensures WellStamped(Run(sorted, k, ts, bucketStart, size, endDate, ids).points, bucketStart, endDate)
  {
    var bucketEnd := Min(bucketStart + size, endDate);
    var next := Consume(sorted, k, bucketEnd);
    var ts' := ApplyRange(ts, sorted, k, next);
    var pt := PointAt(ts', ids, bucketEnd);
    var rest := Run(sorted, next, ts', bucketStart + size, size, endDate, ids).points;
    var p := if pt.Some? then pt.value else Point(bucketEnd, map[]);
    RunStep(sorted, k, ts, bucketStart, size, endDate, ids, next, ts', pt.Some?, p);
    if pt.Some? {
      PointAtSome(ts', ids, bucketEnd);
      StampsCons(p, rest, bucketStart, bucketStart + size, endDate);
    } else {
      assert [] + rest == rest;
    }
  }

  /** A nonempty point stamped in `[lo, mid]` in front of points stamped in
      `[mid, hi]`. */
  lemma StampsCons(p: Point, rest: seq<Point>, lo: int, mid: int, hi: int)
    requires p.values != map[] && lo <= p.timestamp <= mid && p.timestamp <= hi && lo <= mid
    requires WellStamped(rest, mid, hi)
    ensures WellStamped([p] + rest, lo, hi)
  {
    var pts := [p] + rest;
    assert forall i :: 0 < i < |pts| ==> pts[i] == rest[i - 1];
  }

  /** The replay consumes every entry up to `endDate` (nothing when the first
      bucket already starts after it), each once and in order: its maps are
      the starting maps with exactly that slice of the history replayed. */
  lemma {:induction false} RunConsumes(sorted: seq<Vote>, k: nat, ts: Tallies, bucketStart: int, size: nat,
                                       endDate: int, ids: seq<string>)
    requires k <= |sorted| && size > 0
    ensures var r := Run(sorted, k, ts, bucketStart, size, endDate, ids);
            r.cursor == (if bucketStart > endDate then k else Consume(sorted, k, endDate))
            && r.tallies == ApplyRange(ts, sorted, k, r.cursor)
    decreases endDate - bucketStart
  {
    if bucketStart <= endDate {
      var bucketEnd := Min(bucketStart + size, endDate);
      var next := Consume(sorted, k, bucketEnd);
      var ts' := ApplyRange(ts, sorted, k, next);
      RunConsumes(sorted, next, ts', bucketStart + size, size, endDate, ids);
      RunConsumesStep(sorted, k, ts, bucketStart, size, endDate, ids);
    }
  }

  /** One bucket of `RunConsumes`, given the claim for the buckets after it. */
  lemma RunConsumesStep(sorted: seq<Vote>, k: nat, ts: Tallies, bucketStart: int, size: nat,
                        endDate: int, ids: seq<string>)
    requires k <= |sorted| && size > 0 && bucketStart <= endDate
    requires var next := Consume(sorted, k, Min(bucketStart + size, endDate));
             var ts' := ApplyRange(ts, sorted, k, next);
             var r := Run(sorted, next, ts', bucketStart + size, size, endDate, ids);
             r.cursor == (if bucketStart + size > endDate then next else Consume(sorted, next, endDate))
             && r.tallies == ApplyRange(ts', sorted, next, r.cursor)
    ensures var r := Run(sorted, k, ts, bucketStart, size, endDate, ids);
            r.cursor == Consume(sorted, k, endDate) && r.tallies == ApplyRange(ts, sorted, k, r.cursor)
  {
    var bucketEnd := Min(bucketStart + size, endDate);
    var next := Consume(sorted, k, bucketEnd);
    var ts' := ApplyRange(ts, sorted, k, next);
    var r := Run(sorted, next, ts', bucketStart + size, size, endDate, ids);
    assert Run(sorted, k, ts, bucketStart, size, endDate, ids).cursor == r.cursor;
    assert Run(sorted, k, ts, bucketStart, size, endDate, ids).tallies == r.tallies;
    if bucketStart + size <= endDate {
      ConsumeCompose(sorted, k, bucketEnd, endDate);
      ApplyRangeSplit(ts, sorted, k, next, r.cursor);
    }
  }

  /** The `<=` loop makes one pass for each bucket start in
      `[bucketStart, endDate]`, so it emits at most
      `(endDate - bucketStart) / size + 1` points, and none when the first
      bucket already starts after `endDate`. */
  lemma {:induction false} RunLength(sorted: seq<Vote>, k: nat, ts: Tallies, bucketStart: int, size: nat,
                                     endDate: int, ids: seq<string>)
    requires k <= |sorted| && size > 0
    ensures |Run(sorted, k, ts, bucketStart, size, endDate, ids).points|
            <= if bucketStart > endDate then 0 else (endDate - bucketStart) / size + 1
    decreases endDate - bucketStart
  {
    if bucketStart <= endDate {
      var next := Consume(sorted, k, Min(bucketStart + size, endDate));
      RunLength(sorted, next, ApplyRange(ts, sorted, k, next), bucketStart + size, size, endDate, ids);
      if bucketStart + size <= endDate {
        DivStep(endDate - bucketStart, size);
      }
    }
  }

  /** Taking one width off a span of at least one width takes one off the
      number of whole widths in it. */
  lemma DivStep(span: int, size: nat)
    requires size > 0 && span >= size
    ensures (span - size) / size + 1 == span / size
  {
    var q, r := (span - size) / size, (span - size) % size;
    assert span == (q + 1) * size + r;
    DivUnique(span, size, q + 1, r);
  }

  /** The quotient is the only multiplier that leaves a remainder below the
      divisor. */
  lemma DivUnique(a: int, d: nat, q: int, r: int)
    requires d > 0 && a == q * d + r && 0 <= r < d
    ensures a / d == q
  {
    var q0, r0 := a / d, a % d;
    assert a == q0 * d + r0;
    assert (q - q0) * d == r0 - r;
    if q0 < q {
      MulAtLeast(q - q0, d);
    } else if q0 > q {
      MulAtLeast(q0 - q, d);
    }
  }

  /** A positive multiple of `d` is at least `d`. */
  lemma MulAtLeast(x: int, d: nat)
    requires x >= 1
    ensures x * d >= d
  {
    assert x * d == (x - 1) * d + d;
    assert (x - 1) * d >= 0;
  }

  /** When a bucket starts one width before `endDate` (as happens whenever
      the width divides a positive span), the `<=` loop makes a second,
      zero-width pass at `endDate`: it consumes nothing new, so the timeline
      ends with the same point twice, both stamped `endDate`, or with no
      point at all. */
  lemma RunEndsTwice(sorted: seq<Vote>, k: nat, ts: Tallies, size: nat, endDate: int, ids: seq<string>)
    requires k <= |sorted| && size > 0
    ensures var next := Consume(sorted, k, endDate);
            var pt := PointAt(ApplyRange(ts, sorted, k, next), ids, endDate);
            Run(sorted, k, ts, endDate - size, size, endDate, ids).points
            == if pt.Some? then [pt.value, pt.value] else []
    ensures var pt := PointAt(ApplyRange(ts, sorted, k, Consume(sorted, k, endDate)), ids, endDate);
            pt.Some? ==> pt.value.timestamp == endDate
  {
    var next := Consume(sorted, k, endDate);
    var ts' := ApplyRange(ts, sorted, k, next);
    ConsumeCompose(sorted, k, endDate, endDate);
    assert Min(endDate - size + size, endDate) == endDate;
    assert Run(sorted, next, ts', endDate + size, size, endDate, ids).points == [];
    var last := Run(sorted, next, ts', endDate, size, endDate, ids);
    assert Consume(sorted, next, endDate) == next;
    assert ApplyRange(ts', sorted, next, next) == ts';
    PointAtSome(ts', ids, endDate);
  }

  /** What `calculateTimeline` computes for the history, the selected ids and
      the baseline votes, with the range start read at `now` and the end of
      the timeline at `endDate`. */
  function Replayed(history: seq<Vote>, ids: seq<string>, baseline: seq<Vote>, range: TimeRange,
                    now: int, endDate: int): Replay
  {
    if history == [] then Replay([], 0, Seed(ids, baseline))
    else
      var sorted := SortByKey(history, VoteTime);
      var start := Max(sorted[0].at, RangeStart(range, now));
      Run(sorted, 0, Seed(ids, baseline), start, range.BucketSize(), endDate, ids)
  }

  function TimelinePoints(history: seq<Vote>, ids: seq<string>, baseline: seq<Vote>, range: TimeRange,
                          now: int, endDate: int): seq<Point>
  {
    Replayed(history, ids, baseline, range, now, endDate).points
  }

  /** `calculateTimeline`. */
  method CalculateTimeline(history: seq<Vote>, playerIds: seq<string>, baselineVotes: seq<Vote>,
                           range: TimeRange, now: int, endDate: int)
    returns (dataPoints: seq<Point>)
    ensures dataPoints == TimelinePoints(history, playerIds, baselineVotes, range, now, endDate)
  {
    if |history| == 0 {
      return [];
    }
    var sortedHistory := SortByKey(history, VoteTime);
    var earliestVote := sortedHistory[0].at;
    var requestedStartDate := RangeStart(range, now);
    var startDate := Max(earliestVote, requestedStartDate);
    var bucketSize := range.BucketSize();
    var currentVotes := SeedTallies(playerIds, baselineVotes);
    dataPoints := Buckets(sortedHistory, currentVotes, startDate, bucketSize, endDate, playerIds);
  }

  /** The bucket loop of `calculateTimeline`, from the seeded maps on. */
  method Buckets(sortedHistory: seq<Vote>, seed: Tallies, startDate: int, bucketSize: nat, endDate: int,
                 playerIds: seq<string>)
    returns (dataPoints: seq<Point>)
    requires bucketSize > 0 && forall id :: id in playerIds ==> id in seed
    ensures dataPoints == Run(sortedHistory, 0, seed, startDate, bucketSize, endDate, playerIds).points
  {
    var currentVotes := seed;
    var historyIndex: nat := 0;
    dataPoints := [];
    var bucketStart := startDate;
    ghost var total := Run(sortedHistory, 0, seed, startDate, bucketSize, endDate, playerIds).points;
    while bucketStart <= endDate
      invariant historyIndex <= |sortedHistory| && currentVotes.Keys == seed.Keys
      invariant total
             == dataPoints + Run(sortedHistory, historyIndex, currentVotes, bucketStart, bucketSize, endDate, playerIds).points
      decreases endDate - bucketStart
    {
      ghost var rest := Run(sortedHistory, historyIndex, currentVotes, bucketStart, bucketSize, endDate, playerIds).points;
      var emitted;
      historyIndex, currentVotes, emitted :=
        Bucket(sortedHistory, historyIndex, currentVotes, bucketStart, bucketSize, endDate, playerIds);
      ghost var after := Run(sortedHistory, historyIndex, currentVotes, bucketStart + bucketSize, bucketSize, endDate, playerIds).points;
      Regroup(total, dataPoints, rest, emitted, after);
      dataPoints := dataPoints + emitted;
      bucketStart := bucketStart + bucketSize;
    }
  }

  /** Moving the emitted points from the pending tail to the output keeps
      the concatenation. */
  lemma Regroup(total: seq<Point>, done: seq<Point>, rest: seq<Point>, emitted: seq<Point>, after: seq<Point>)
    requires total == done + rest && rest == emitted + after
    ensures total == (done + emitted) + after
  {
  }

  /** One pass of the bucket loop: apply the bucket's entries, then build the
      point and keep it (`emitted`) when somebody has votes. */
  method Bucket(sortedHistory: seq<Vote>, historyIndex: nat, currentVotes: Tallies, bucketStart: int,
                bucketSize: nat, endDate: int, playerIds: seq<string>)
    returns (next: nat, votes: Tallies, emitted: seq<Point>)
    requires historyIndex <= |sortedHistory| && bucketSize > 0 && bucketStart <= endDate
    requires forall id :: id in playerIds ==> id in currentVotes
    ensures next <= |sortedHistory| && votes.Keys == currentVotes.Keys
    ensures Run(sortedHistory, historyIndex, currentVotes, bucketStart, bucketSize, endDate, playerIds).points
            == emitted + Run(sortedHistory, next, votes, bucketStart + bucketSize, bucketSize, endDate, playerIds).points
  {
    var bucketEnd := Min(bucketStart + bucketSize, endDate);
    next, votes := ApplyBucket(sortedHistory, historyIndex, currentVotes, bucketEnd);
    var hasData, point := BuildPoint(votes, playerIds, bucketEnd);
    RunStep(sortedHistory, historyIndex, currentVotes, bucketStart, bucketSize, endDate, playerIds, next, votes, hasData, point);
    emitted := if hasData then [point] else [];
  }

  /** The earliest time in a history (the reference the replay's start is
      checked against). */
  function Earliest(history: seq<Vote>): (r: int)
    requires history != []
    ensures exists v :: v in history && v.at == r
    ensures forall v :: v in history ==> r <= v.at
  {
    if |history| == 1 then history[0].at
    else
      var e := Earliest(history[1..]);
      assert forall v :: v in history[1..] ==> v in history;
      assert forall v :: v in history ==> v == history[0] || v in history[1..];
      if history[0].at < e then history[0].at else e
  }

  /** The first entry of the sorted history carries the earliest time. */
  lemma SortedFirstIsEarliest(history: seq<Vote>)
    requires history != []
    ensures SortByKey(history, VoteTime)[0].at == Earliest(history)
  {
    var sorted := SortByKey(history, VoteTime);
    FirstIsLeast(sorted);
    assert sorted[0] in multiset(history);
    var v :| v in history && v.at == Earliest(history);
    assert v in multiset(sorted);
  }

  /** In a history sorted by time, the first entry is not later than any. */
  lemma FirstIsLeast(sorted: seq<Vote>)
    requires sorted != [] && Ascending(sorted, VoteTime)
    ensures forall v :: v in sorted ==> sorted[0].at <= v.at
  {
    forall v | v in sorted ensures sorted[0].at <= v.at {
      var i :| 0 <= i < |sorted| && sorted[i] == v;
      assert VoteTime(sorted[0]) <= VoteTime(sorted[i]);
    }
  }

  /** An empty history gives no points; otherwise every point is stamped no
      earlier than both the earliest vote and the range start, and no later
      than `endDate`, the stamps never decrease, and no point is empty. */
  lemma TimelineShape(history: seq<Vote>, ids: seq<string>, baseline: seq<Vote>, range: TimeRange,
                      now: int, endDate: int)
    ensures history == [] ==> TimelinePoints(history, ids, baseline, range, now, endDate) == []
    ensures history != [] ==>
              var pts := TimelinePoints(history, ids, baseline, range, now, endDate);
              StampsWithin(pts, Max(Earliest(history), RangeStart(range, now)), endDate)
              && StampsNondecreasing(pts)
              && forall i :: 0 <= i < |pts| ==> pts[i].values != map[]
  {
    if history != [] {
      var sorted := SortByKey(history, VoteTime);
      SortedFirstIsEarliest(history);
      RunStamps(sorted, 0, Seed(ids, baseline), Max(sorted[0].at, RangeStart(range, now)),
                range.BucketSize(), endDate, ids);
      assert WellStamped(TimelinePoints(history, ids, baseline, range, now, endDate),
                         Max(sorted[0].at, RangeStart(range, now)), endDate);
    }
  }

  /** Once the replay is over, the entries replayed are exactly those of the
      history not later than `endDate` (all of them when the first bucket
      starts no later than `endDate`), each applied once, in time order, on
      top of the baseline. */
  lemma TimelineConsumes(history: seq<Vote>, ids: seq<string>, baseline: seq<Vote>, range: TimeRange,
                         now: int, endDate: int)
    requires history != []
    ensures var sorted := SortByKey(history, VoteTime);
            var r := Replayed(history, ids, baseline, range, now, endDate);
            r.cursor <= |sorted| && r.tallies == ApplyRange(Seed(ids, baseline), sorted, 0, r.cursor)
            && (forall i :: 0 <= i < r.cursor ==> sorted[i].at <= endDate)
            && (Max(sorted[0].at, RangeStart(range, now)) <= endDate ==>
                  forall i :: r.cursor <= i < |sorted| ==> sorted[i].at > endDate)
  {
    var sorted := SortByKey(history, VoteTime);
    var start := Max(sorted[0].at, RangeStart(range, now));
    RunConsumes(sorted, 0, Seed(ids, baseline), start, range.BucketSize(), endDate, ids);
    ConsumeStops(sorted, 0, endDate);
    ConsumeSorted(sorted, 0, endDate);
  }

  // ----- calculatePlayerStats -----

  datatype Trend = Up | Down | Stable

  /** `{ current, peak, low, trend }` of one player. */
  datatype Stats = Stats(current: real, peak: real, low: real, trend: Trend)

  /** The values a player has in the points, in point order (those of the
      points that hold the player). */
  function ScoresOf(points: seq<Point>, id: string): (r: seq<real>)
    ensures |r| <= |points|
    ensures forall x :: x in r ==> exists p :: p in points && id in p.values && p.values[id] == x
  {
    if points == [] then []
    else
      var init := ScoresOf(points[..|points| - 1], id);
      var p := points[|points| - 1];
      assert forall q :: q in points[..|points| - 1] ==> q in points;
      if id in p.values then init + [p.values[id]] else init
  }

  /** The positions of the points that hold the player, in order. */
  function Holders(points: seq<Point>, id: string): seq<nat>
  {
    if points == [] then []
    else
      var n := |points| - 1;
      Holders(points[..n], id) + (if id in points[n].values then [n] else [])
  }

  /** Score `j` of the series `r` is the player's value at point `h[j]`. */
  predicate IndexedBy(points: seq<Point>, id: string, h: seq<nat>, r: seq<real>)
  {
    |h| == |r| && forall j :: 0 <= j < |h| ==> h[j] < |points| && id in points[h[j]].values
                                               && r[j] == points[h[j]].values[id]
  }

  predicate StrictlyIncreasing(h: seq<nat>)
  {
    forall j, j' :: 0 <= j < j' < |h| ==> h[j] < h[j']
  }

  /** Every point that holds the player is among the positions `h`. */
  predicate AllHolders(points: seq<Point>, id: string, h: seq<nat>)
  {
    forall i :: 0 <= i < |points| && id in points[i].values ==> i in h
  }

  /** How the series lines up with the points: score `j` comes from the
      `j`-th point that holds the player, in point order, and every point
      that holds the player gives exactly one score. So `slice(-3)` and
      `slice(-6, -3)` of the series are the values at the last six points
      that hold the player. */
  lemma ScoresOfPositions(points: seq<Point>, id: string)
    ensures exists h :: IndexedBy(points, id, h, ScoresOf(points, id)) && StrictlyIncreasing(h)
                        && AllHolders(points, id, h)
  {
    HoldersIndexed(points, id);
    HoldersIncreasing(points, id);
    HoldersAll(points, id);
    assert IndexedBy(points, id, Holders(points, id), ScoresOf(points, id));
  }

  lemma {:induction false} HoldersIndexed(points: seq<Point>, id: string)
    ensures IndexedBy(points, id, Holders(points, id), ScoresOf(points, id))
    decreases |points|
  {
    if points != [] {
      var n := |points| - 1;
      var front := points[..n];
      HoldersIndexed(front, id);
      var hf, rf := Holders(front, id), ScoresOf(front, id);
      assert forall j :: 0 <= j < |hf| ==> front[hf[j]] == points[hf[j]];
      if id in points[n].values {
        assert Holders(points, id) == hf + [n];
        assert ScoresOf(points, id) == rf + [points[n].values[id]];
      } else {
        assert Holders(points, id) == hf + [];
        assert ScoresOf(points, id) == rf;
      }
    }
  }

  lemma {:induction false} HoldersBelow(points: seq<Point>, id: string)
    ensures forall j :: 0 <= j < |Holders(points, id)| ==> Holders(points, id)[j] < |points|
    decreases |points|
  {
    if points != [] {
      HoldersBelow(points[..|points| - 1], id);
    }
  }

  lemma {:induction false} HoldersIncreasing(points: seq<Point>, id: string)
    ensures StrictlyIncreasing(Holders(points, id))
    decreases |points|
  {
    if points != [] {
      var n := |points| - 1;
      var front := points[..n];
      HoldersIncreasing(front, id);
      HoldersBelow(front, id);
    }
  }

  lemma {:induction false} HoldersAll(points: seq<Point>, id: string)
    ensures AllHolders(points, id, Holders(points, id))
    decreases |points|
  {
    if points != [] {
      var n := |points| - 1;
      var front := points[..n];
      HoldersAll(front, id);
      assert forall i :: 0 <= i < n ==> front[i] == points[i];
      var h := Holders(points, id);
      assert forall x :: x in Holders(front, id) ==> x in h;
    }
  }

  /** The series is empty exactly when no point holds the player. */
  lemma {:induction false} ScoresOfEmpty(points: seq<Point>, id: string)
    ensures ScoresOf(points, id) == [] <==> forall i :: 0 <= i < |points| ==> id !in points[i].values
    decreases |points|
  {
    if points != [] {
      var n := |points| - 1;
      var front := points[..n];
      ScoresOfEmpty(front, id);
      assert forall i :: 0 <= i < n ==> front[i] == points[i];
    }
  }

  /** Every point that holds the player contributes its value to the series. */
  lemma {:induction false} ScoresOfCovers(points: seq<Point>, id: string, i: nat)
    requires i < |points| && id in points[i].values
    ensures points[i].values[id] in ScoresOf(points, id)
    decreases |points|
  {
    var n := |points| - 1;
    var front := points[..n];
    if i < n {
      assert front[i] == points[i];
      ScoresOfCovers(front, id, i);
    }
  }

  /** Point `i` holds the player and no later point does. */
  predicate LastHolder(points: seq<Point>, id: string, i: int)
  {
    0 <= i < |points| && id in points[i].values && forall j :: i < j < |points| ==> id !in points[j].values
  }

  /** The last holder among all but the final point stays the last holder
      when the final point does not hold the player. */
  lemma LastHolderExtend(points: seq<Point>, id: string, i: int)
    requires points != [] && id !in points[|points| - 1].values
    requires LastHolder(points[..|points| - 1], id, i)
    ensures LastHolder(points, id, i) && points[..|points| - 1][i] == points[i]
  {
    var front := points[..|points| - 1];
    assert forall j :: i < j < |front| ==> front[j] == points[j];
  }

  /** The last score of a nonempty series is the value at the last point
      that holds the player. */
  lemma {:induction false} ScoresOfLast(points: seq<Point>, id: string)
    requires ScoresOf(points, id) != []
    ensures var r := ScoresOf(points, id);
            exists i :: LastHolder(points, id, i) && r[|r| - 1] == points[i].values[id]
    decreases |points|
  {
    var n := |points| - 1;
    var front := points[..n];
    var r := ScoresOf(points, id);
    if id in points[n].values {
      assert r == ScoresOf(front, id) + [points[n].values[id]];
      assert LastHolder(points, id, n);
    } else {
      assert r == ScoresOf(front, id);
      ScoresOfLast(front, id);
      var i :| LastHolder(front, id, i) && r[|r| - 1] == front[i].values[id];
      LastHolderExtend(points, id, i);
    }
  }

  function Sum(s: seq<real>): real
  {
    if s == [] then 0.0 else Sum(s[..|s| - 1]) + s[|s| - 1]
  }

  function Mean(s: seq<real>): real
    requires s != []
  {
    Sum(s) / (|s| as real)
  }

  /** A sum of values no smaller than `lo` (no larger than `hi`) is at least
      (at most) as many times `lo` (`hi`). */
  lemma {:induction false} SumBounds(s: seq<real>, lo: real, hi: real)
    requires forall i :: 0 <= i < |s| ==> lo <= s[i] <= hi
    ensures (|s| as real) * lo <= Sum(s) <= (|s| as real) * hi
    decreases |s|
  {
    if s != [] {
      SumBounds(s[..|s| - 1], lo, hi);
    }
  }

  lemma MeanBounds(s: seq<real>, lo: real, hi: real)
    requires s != [] && forall i :: 0 <= i < |s| ==> lo <= s[i] <= hi
    ensures lo <= Mean(s) <= hi
  {
    SumBounds(s, lo, hi);
    var n := |s| as real;
    assert Sum(s) / n >= (n * lo) / n;
    assert Sum(s) / n <= (n * hi) / n;
  }

  /** `Math.max(...scores)`. */
  function Peak(s: seq<real>): (r: real)
    requires s != []
    ensures r in s && forall i :: 0 <= i < |s| ==> s[i] <= r
  {
    if |s| == 1 then s[0]
    else
      var m := Peak(s[1..]);
      assert forall i :: 1 <= i < |s| ==> s[i] == s[1..][i - 1];
      if s[0] > m then s[0] else m
  }

  /** `Math.min(...scores)`. */
  function Low(s: seq<real>): (r: real)
    requires s != []
    ensures r in s && forall i :: 0 <= i < |s| ==> r <= s[i]
  {
    if |s| == 1 then s[0]
    else
      var m := Low(s[1..]);
      assert forall i :: 1 <= i < |s| ==> s[i] == s[1..][i - 1];
      if s[0] < m then s[0] else m
  }

  /** The trend test: with at least 3 scores, the mean of the last 3 against
      the mean of the up to 3 before them (`slice(-6, -3)`), when there are
      any, with a band of 0.1. Fewer than 4 scores never make a trend, since
      the window before the last 3 is then empty. */
  function TrendOf(scores: seq<real>): (r: Trend)
    ensures |scores| < 4 ==> r == Stable
  {
    if |scores| >= 3 then
      var recent := scores[|scores| - 3..];
      var avgRecent := Mean(recent);
      var earlier := scores[Max(|scores| - 6, 0)..|scores| - 3];
      if |earlier| > 0 then
        var avgEarlier := Mean(earlier);
        if avgRecent > avgEarlier + 0.1 then Up
        else if avgRecent < avgEarlier - 0.1 then Down
        else Stable
      else Stable
    else Stable
  }

  /** One player's summary: zeros and stable without scores; otherwise the
      last score, lying between the lowest and the highest of all. */
  function StatsOf(scores: seq<real>): (r: Stats)
    ensures scores == [] ==> r == Stats(0.0, 0.0, 0.0, Stable)
    ensures scores != [] ==> r.current == scores[|scores| - 1] && r.low <= r.current <= r.peak
    ensures scores != [] ==> r.peak in scores && r.low in scores
                             && forall i :: 0 <= i < |scores| ==> r.low <= scores[i] <= r.peak
    ensures r.trend == TrendOf(scores)
  {
    if scores == [] then Stats(0.0, 0.0, 0.0, Stable)
    else Stats(scores[|scores| - 1], Peak(scores), Low(scores), TrendOf(scores))
  }

  /** With at least 4 scores the trend is up exactly when the mean of the
      last 3 exceeds the mean of the (up to) 3 scores right before them by
      more than 0.1, and down exactly when it falls short of it by more
      than 0.1. */
  lemma TrendWindows(scores: seq<real>)
    requires |scores| >= 4
    ensures var n := |scores|; var m := if n >= 6 then 3 else n - 3;
            var recent, earlier := Mean(scores[n - 3..]), Mean(scores[n - 3 - m..n - 3]);
            && (TrendOf(scores) == Up <==> recent > earlier + 0.1)
            && (TrendOf(scores) == Down <==> recent < earlier - 0.1)
  {
    var n := |scores|;
    assert Max(n - 6, 0) == n - 3 - (if n >= 6 then 3 else n - 3);
  }

  /** When each of the last 3 scores beats each score of the window of up to
      3 scores right before them by more than 0.1, the trend is up; scores
      older than that window do not matter. */
  lemma TrendRising(scores: seq<real>, lo: real, hi: real)
    requires |scores| >= 4
    requires forall i :: |scores| - 3 <= i < |scores| ==> scores[i] >= lo
    requires forall i :: Max(|scores| - 6, 0) <= i < |scores| - 3 ==> scores[i] <= hi
    requires lo > hi + 0.1
    ensures TrendOf(scores) == Up
  {
    var n := |scores|;
    var recent := scores[n - 3..];
    var earlier := scores[Max(n - 6, 0)..n - 3];
    MeanBounds(recent, lo, Peak(recent));
    MeanBounds(earlier, Low(earlier), hi);
  }

  /** Symmetrically, a clear drop makes the trend down. */
  lemma TrendFalling(scores: seq<real>, lo: real, hi: real)
    requires |scores| >= 4
    requires forall i :: |scores| - 3 <= i < |scores| ==> scores[i] <= hi
    requires forall i :: Max(|scores| - 6, 0) <= i < |scores| - 3 ==> scores[i] >= lo
    requires lo > hi + 0.1
    ensures TrendOf(scores) == Down
  {
    var n := |scores|;
    var recent := scores[n - 3..];
    var earlier := scores[Max(n - 6, 0)..n - 3];
    MeanBounds(recent, Low(recent), hi);
    MeanBounds(earlier, lo, Peak(earlier));
  }

  /** `calculatePlayerStats`: one entry per selected player. */
  method CalculatePlayerStats(timeline: seq<Point>, playerIds: seq<string>) returns (stats: map<string, Stats>)
    ensures forall id :: id in stats <==> id in playerIds
    ensures forall id :: id in playerIds ==> stats[id] == StatsOf(ScoresOf(timeline, id))
  {
    stats := map[];
    for i := 0 to |playerIds|
      invariant forall id :: id in stats <==> id in playerIds[..i]
      invariant forall id :: id in stats ==> stats[id] == StatsOf(ScoresOf(timeline, id))
    {
      assert playerIds[..i + 1] == playerIds[..i] + [playerIds[i]];
      var playerId := playerIds[i];
      var scores := ScoresOf(timeline, playerId);
      stats := stats[playerId := StatsOf(scores)];
    }
    assert playerIds[..|playerIds|] == playerIds;
  }

  /** `x` is the player's value at the last point that holds them. */
  ghost predicate LastValue(timeline: seq<Point>, id: string, x: real)
  {
    exists i :: LastHolder(timeline, id, i) && x == timeline[i].values[id]
  }

  /** `x` is the player's value at some point. */
  ghost predicate SomeValue(timeline: seq<Point>, id: string, x: real)
  {
    exists p :: p in timeline && id in p.values && p.values[id] == x
  }

  /** Every value the player has in the timeline lies in `[lo, hi]`. */
  predicate ValuesWithin(timeline: seq<Point>, id: string, lo: real, hi: real)
  {
    forall i :: 0 <= i < |timeline| && id in timeline[i].values ==> lo <= timeline[i].values[id] <= hi
  }

  /** A player's summary read against the timeline: zeros and stable when no
      point holds the player; otherwise the current value is the player's
      value at the last point that holds them, every value of theirs lies
      between low and peak, and peak and low are values of some point. */
  lemma PlayerStatsOfPoints(timeline: seq<Point>, id: string)
    ensures (forall i :: 0 <= i < |timeline| ==> id !in timeline[i].values) ==>
              StatsOf(ScoresOf(timeline, id)) == Stats(0.0, 0.0, 0.0, Stable)
    ensures var st := StatsOf(ScoresOf(timeline, id));
            (exists i :: 0 <= i < |timeline| && id in timeline[i].values) ==>
              && LastValue(timeline, id, st.current)
              && ValuesWithin(timeline, id, st.low, st.peak)
              && SomeValue(timeline, id, st.peak) && SomeValue(timeline, id, st.low)
  {
    ScoresOfEmpty(timeline, id);
    if ScoresOf(timeline, id) != [] {
      StatsCurrentLast(timeline, id);
      StatsBoundPoints(timeline, id);
      StatsExtremesAttained(timeline, id);
    }
  }

  lemma StatsCurrentLast(timeline: seq<Point>, id: string)
    requires ScoresOf(timeline, id) != []
    ensures LastValue(timeline, id, StatsOf(ScoresOf(timeline, id)).current)
  {
    var r := ScoresOf(timeline, id);
    ScoresOfLast(timeline, id);
    var i :| LastHolder(timeline, id, i) && r[|r| - 1] == timeline[i].values[id];
    var c := StatsOf(r).current;
    assert c == r[|r| - 1];
    assert LastHolder(timeline, id, i) && c == timeline[i].values[id];
  }

  /** Every value the player has in the timeline lies between the low and
      the peak of their series. */
  lemma StatsBoundPoints(timeline: seq<Point>, id: string)
    requires ScoresOf(timeline, id) != []
    ensures var st := StatsOf(ScoresOf(timeline, id)); ValuesWithin(timeline, id, st.low, st.peak)
  {
    var r := ScoresOf(timeline, id);
    var st := StatsOf(r);
    forall i | 0 <= i < |timeline| && id in timeline[i].values
      ensures st.low <= timeline[i].values[id] <= st.peak
    {
      ScoresOfCovers(timeline, id, i);
      var k :| 0 <= k < |r| && r[k] == timeline[i].values[id];
    }
  }

  lemma StatsExtremesAttained(timeline: seq<Point>, id: string)
    requires ScoresOf(timeline, id) != []
    ensures var st := StatsOf(ScoresOf(timeline, id));
            SomeValue(timeline, id, st.peak) && SomeValue(timeline, id, st.low)
  {
    var r := ScoresOf(timeline, id);
    assert StatsOf(r).peak in r && StatsOf(r).low in r;
  }

  // ----- selection and colours -----

  /** At most this many players can be selected. */
  const MaxSelected: nat := 8

  /** `PLAYER_COLORS`. */
  const PlayerColors: seq<string> :=
    ["#3b82f6", "#f97316", "#10b981", "#8b5cf6", "#f59e0b", "#ec4899", "#14b8a6", "#ef4444"]

  predicate Distinct(s: seq<string>)
  {
    forall i, j :: 0 <= i < j < |s| ==> s[i] != s[j]
  }

  /** `Set.delete`: the others stay in insertion order. */
  function Remove(s: seq<string>, x: string): (r: seq<string>)
    ensures forall y :: y in r <==> y in s && y != x
    ensures Distinct(s) ==> Distinct(r) && |r| == (if x in s then |s| - 1 else |s|)
  {
    if s == [] then []
    else
      var rest := Remove(s[1..], x);
      assert forall y :: y in s <==> y == s[0] || y in s[1..];
      if s[0] == x then rest
      else
        assert Distinct(s) ==> s[0] !in rest;
        [s[0]] + rest
  }

  /** Deleting a player who is not selected changes nothing. */
  lemma {:induction false} RemoveAbsent(s: seq<string>, x: string)
    requires x !in s
    ensures Remove(s, x) == s
    decreases |s|
  {
    if s != [] {
      assert s[1..] == s[1..] && x !in s[1..];
      RemoveAbsent(s[1..], x);
      assert s == [s[0]] + s[1..];
    }
  }

  /** Deleting the only occurrence of a player, at position `k`, cuts it out
      and keeps the others in order. */
  lemma {:induction false} RemoveAt(s: seq<string>, x: string, k: nat)
    requires k < |s| && s[k] == x && x !in s[..k] && x !in s[k + 1..]
    ensures Remove(s, x) == s[..k] + s[k + 1..]
    decreases k
  {
    var t := s[1..];
    if k == 0 {
      assert t == s[k + 1..];
      RemoveAbsent(t, x);
    } else {
      assert s[0] in s[..k];
      assert t[..k - 1] == s[1..k] && t[k..] == s[k + 1..];
      RemoveAt(t, x, k - 1);
      assert s[..k] == [s[0]] + s[1..k];
    }
  }

  /** On a set, deleting a member cuts its one occurrence out and keeps the
      others in order, so the players after it move one position forward. */
  lemma RemoveCutsOut(s: seq<string>, x: string)
    requires Distinct(s) && x in s
    ensures exists k :: 0 <= k < |s| && s[k] == x && Remove(s, x) == s[..k] + s[k + 1..]
  {
    var k := IndexOf(s, x);
    assert x !in s[..k];
    var after := s[k + 1..];
    forall y | y in after
      ensures y != x
    {
      var j :| 0 <= j < |after| && after[j] == y;
      assert s[k + 1 + j] == y;
    }
    RemoveAt(s, x, k);
  }

  /** `Array.from(selected).indexOf(id)`: the position, or -1. */
  function IndexOf(s: seq<string>, x: string): (r: int)
    ensures -1 <= r < |s|
    ensures r == -1 <==> x !in s
    ensures r >= 0 ==> s[r] == x && forall j :: 0 <= j < r ==> s[j] != x
  {
    if s == [] then -1
    else if s[0] == x then 0
    else
      var r := IndexOf(s[1..], x);
      if r == -1 then -1 else r + 1
  }

  /** JavaScript's `%`, which keeps the sign of the dividend. */
  function JsRem(a: int, b: int): int
    requires b > 0
  {
    if a >= 0 then a % b else -((-a) % b)
  }

  /** `getPlayerColor`: `PLAYER_COLORS[index % 8]`, which is `undefined`
      (here `None`) for the -1 of an unselected player. A player has a
      colour exactly when selected, and it is one of the palette's. */
  function PlayerColor(selected: seq<string>, id: string): (r: Option<string>)
    ensures r.Some? <==> id in selected
    ensures r.Some? ==> r.value in PlayerColors
  {
    var r := JsRem(IndexOf(selected, id), |PlayerColors|);
    if 0 <= r then Some(PlayerColors[r]) else None
  }

  /** Within the cap, different selected players get different colours. */
  lemma DistinctColors(selected: seq<string>, a: string, b: string)
    requires Distinct(selected) && |selected| <= MaxSelected
    requires a in selected && b in selected && a != b
    ensures PlayerColor(selected, a).Some? && PlayerColor(selected, b).Some?
    ensures PlayerColor(selected, a) != PlayerColor(selected, b)
  {
    var i, j := IndexOf(selected, a), IndexOf(selected, b);
    assert JsRem(i, 8) == i && JsRem(j, 8) == j;
    ColorsDistinct();
  }

  /** The eight colours are pairwise different. */
  lemma ColorsDistinct()
    ensures forall i, j :: 0 <= i < j < |PlayerColors| ==> PlayerColors[i] != PlayerColors[j]
  {
    forall i, j | 0 <= i < j < |PlayerColors| ensures PlayerColors[i] != PlayerColors[j] {
      assert PlayerColors[i][1] != PlayerColors[j][1] || PlayerColors[i][2] != PlayerColors[j][2];
    }
  }

  /** The selected players of the timeline page, in insertion order. */
  class TimelineSelection {
    var selected: seq<string>

    /** A set of at most `MaxSelected` players. */
    ghost predicate Valid()
      reads this
    {
      Distinct(selected) && |selected| <= MaxSelected
    }

    constructor ()
      ensures Valid() && selected == []
    {
      selected := [];
    }

    /** `togglePlayer`: a selected player is removed; another is added at
        the end unless the cap is reached, in which case nothing changes and
        `accepted` is false (the alert). */
    method TogglePlayer(playerId: string) returns (accepted: bool)
      requires Valid()
      modifies this
      ensures Valid()
      ensures old(playerId in selected) ==> accepted && selected == Remove(old(selected), playerId)
      ensures playerId !in old(selected) && |old(selected)| >= MaxSelected ==>
                !accepted && selected == old(selected)
      ensures playerId !in old(selected) && |old(selected)| < MaxSelected ==>
                accepted && selected == old(selected) + [playerId]
    {
      if playerId in selected {
        selected := Remove(selected, playerId);
      } else {
        if |selected| >= MaxSelected {
          return false;
        }
        selected := selected + [playerId];
      }
      accepted := true;
    }

    /** `getPlayerColor` on the current selection. */
    function ColorOf(playerId: string): Option<string>
      reads this
    {
      PlayerColor(selected, playerId)
    }
  }
}
