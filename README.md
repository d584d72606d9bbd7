# rematch-balance in Dafny

A model of the client-side logic of the rematch-balance web app. Players rate
each other, and three pages compute things from those ratings:

- **Balance page** (`app/balance/page.tsx`). The page keeps the rated players,
  each with an online flag, plus two teams being built and the pool of online
  players on neither team. Its `balanceTeams` checks the request and fills
  both teams from the pool. Pools of up to 12 players go to an exhaustive
  search over the combinations that `getCombinations` generates by
  backtracking. Larger pools go to a greedy walk over the pool sorted by
  score. The page class `Roster.BalancePage` holds the four lists as fields.
  Its methods are the page's handlers: toggle online, move to or remove from
  a team, the two resets, and balance.
- **Timeline page** (`app/timeline/page.tsx`). `calculateTimeline` replays a
  time-sorted vote history, bucket by bucket, into per-player `voter -> score`
  maps seeded from the current votes. It emits a point of per-player averages
  for each bucket in which somebody has votes. `calculatePlayerStats`
  summarises each player's series as current, peak, low and trend. The class
  `Timeline.TimelineSelection` holds the capped player selection, and
  `PlayerColor` gives each selected player a colour.
- **History page** (`app/history/page.tsx`). `formatDate` gives the relative
  age of a vote, and `getScoreColor` picks the colour band of a score.

Modules:

- `Options`: `Option`.
- `Players`: players, team totals, filtering by id.
- `Durations`: a minute, an hour and a day in milliseconds.
- `Sorting`: a stable sort by a real key.
- `Choices`: `getCombinations`.
- `Balancer`: `optimalBalance` and `greedyBalance`.
- `Roster`: the balance page and `getRankTitle`.
- `Timeline`: the timeline page.
- `History`: the history page.

How the model represents things:

- Scores are `real`.
- Times are integer milliseconds.
- The clock is a parameter: `now` for the range start and `endDate` for the
  end of the timeline.
- A JavaScript `Map` from voter to score keeps insertion order. It is
  modelled as a list of `Ballot`s. Setting a voter keeps its place, and a new
  voter goes at the end.
- `Infinity` as the "nothing found yet" value of `bestDiff` is modelled by a
  `found` flag.
- Every loop of the source is a loop in the model, proved against a function
  that specifies it:
  - `Backtrack` against `Extensions`;
  - `OptimalBalance` against `Scan`;
  - `GreedyWalk` against `WalkFrom`;
  - `Buckets` and `ApplyBucket` against `Run`, `Consume` and `ApplyRange`;
  - `BuildPoint` against `PointAt`.
- Lemmas then state what the source promises about those functions.

The model shows one behaviour of the source worth knowing about
(`RestoreRoundTrip`): if nobody is online, an empty list is saved, and
loading an empty list marks every player online.

A second one concerns the end of the timeline (`RunEndsTwice`). The bucket
loop runs while the bucket start is at most `endDate`. When a bucket starts
exactly one width before `endDate`, as happens whenever the width divides a
positive span, the loop makes one more pass, of zero width, at `endDate`. That
pass applies no new votes, so when that last bucket has a point, the timeline
ends with the same point twice, both stamped `endDate`.

## Model

| member | source | states |
|---|---|---|
| Players.TotalAppend | app/balance/page.tsx:128-130 | the team total of two rosters one after the other is the sum of their totals |
| Players.Total | app/balance/page.tsx:128-130 | no contract of its own: the running total of a team's scores, the reduce of `balanceTeams`; `TotalAppend` states how it splits over a concatenation |
| Players.WithoutIdsMembers | app/balance/page.tsx:249-250 | the id filter keeps exactly the players whose id is not dropped, each no more often than before |
| Players.WithoutIdsDistinct | app/balance/page.tsx:249-250 | filtering by id keeps user ids distinct |
| Sorting.SortByKey | app/balance/page.tsx:181 | the result is ascending by the key and is a permutation of the input; `SortStable` states that it is stable |
| Sorting.SortStable | app/timeline/page.tsx:173-175 | the sort is stable: for every key value, the elements with that key come out in their input order, which fixes the replay order of votes with the same time and the greedy order of players with the same score |
| Sorting.InsertStable | app/timeline/page.tsx:173-175 | inserting an element puts it in front of every element of the same key and keeps the others' order |
| Choices.Backtrack | app/balance/page.tsx:228-239 | the recursive backtracking appends to `result` exactly the selections at the index lists that `Extensions` lists from `start`, with `current` holding the picked positions |
| Choices.GetCombinations | app/balance/page.tsx:221-243 | the three shortcuts and the backtracking return exactly `Combinations(arr, size)` |
| Choices.IndexCombinationsExact | app/balance/page.tsx:228-241 | the index lists produced are exactly the strictly increasing choices of k positions, in strictly increasing lexicographic order, with no repetition |
| Choices.CombinationsEdgeCases | app/balance/page.tsx:222-224 | `[[]]` for size 0, nothing for a size above the length, and the list itself for a size equal to its length, each agreeing with the backtracking |
| Balancer.OptimalBalance | app/balance/page.tsx:208-266 | the loop keeps the result of the scan `Scan` over the combinations seen so far; it returns `ExactSplit` |
| Balancer.ScanFirstBest | app/balance/page.tsx:247-263 | the scan finds nothing exactly when no candidate has a complement of `need2` players, and otherwise the first candidate of smallest spread |
| Balancer.ExactSplitOutcome | app/balance/page.tsx:245-265 | the exact search returns the first best admissible combination and its complement, or two empty teams when none is admissible |
| Balancer.ExactOptimal | app/balance/page.tsx:245-265 | with distinct ids and `need1 + need2` equal to the pool size, team 1 has `need1` players and team 2 is its in-order complement of `need2` players; together they are the pool; no choice of `need1` players has a smaller spread; among equally good choices the lexicographically first is returned |
| Balancer.SelectPartition | app/balance/page.tsx:249-250 | with distinct ids, a selection and the players left over by id together make up the pool |
| Balancer.ComplementSize | app/balance/page.tsx:249-252 | the complement of a choice of k of n players has n - k players |
| Balancer.AssignStep | app/balance/page.tsx:188-202 | one greedy step appends the player to at most one team, and to exactly one when a team has room. While both have room it goes to team 1 exactly when total1 <= total2; otherwise it goes to the team with room. The chosen running total rises by the player's score, and no team outgrows its need |
| Balancer.WalkInvariants | app/balance/page.tsx:187-203 | throughout the walk, `|team1| <= need1` and `|team2| <= need2`, each running total is the existing total plus the team's scores, and teams only grow by appending |
| Balancer.WalkExhaustive | app/balance/page.tsx:187-203 | when the remaining needs add up to the remaining players, every player lands in exactly one team and both teams end exactly full |
| Balancer.GreedyOrder | app/balance/page.tsx:181 | the greedy walk visits every pool player once, in non-increasing score order |
| Balancer.GreedyWalk | app/balance/page.tsx:182-205 | the push loop computes the walk `WalkFrom` from two empty teams and the existing totals |
| Balancer.GreedyBalance | app/balance/page.tsx:168-206 | returns `BalanceSplit`: the exact search when the pool has at most 12 players, the greedy walk over the sorted pool otherwise |
| Balancer.BalanceSplitParts | app/balance/page.tsx:168-206 | for a valid request both strategies split the pool into parts of exactly `need1` and `need2` players that together are the pool |
| Roster.OnlineMembers | app/balance/page.tsx:133 | the online filter keeps exactly the online players and keeps ids distinct |
| Roster.Online | app/balance/page.tsx:133 | no contract of its own: the online players in roster order; `OnlineMembers` states its members |
| Roster.AvailableMembers | app/balance/page.tsx:32-41 | a player is in the pool exactly when it is online and its id is on neither team; the pool has distinct ids |
| Roster.AvailablePool | app/balance/page.tsx:32-41 | no contract of its own: the online players on neither team, as the sync effect derives them; `AvailableMembers` states its members |
| Roster.PoolAfterJoin | app/balance/page.tsx:112-118 | putting a player on a team takes exactly the players with that id out of the pool |
| Roster.PoolExhausted | app/balance/page.tsx:163-165 | once the two parts added cover the pool, the synchronised pool is empty, agreeing with `setAvailablePlayers([])` |
| Roster.Find | app/balance/page.tsx:98-99 | the result is absent exactly when no player has the id, and otherwise is the first player with it |
| Roster.Flip | app/balance/page.tsx:107-109 | only the players with the target id change, and only in their online flag, which flips |
| Roster.FlipTwice | app/balance/page.tsx:107-109 | toggling the same player twice restores the roster |
| Roster.AllOffline | app/balance/page.tsx:271 | every player is marked offline and nothing else changes |
| Roster.AllOfflineEmpty | app/balance/page.tsx:268-273 | nobody is online after `resetAll` |
| Roster.OnlineIds | app/balance/page.tsx:44-49 | the saved ids are the online players' ids, in roster order |
| Roster.Restore | app/balance/page.tsx:83-90 | on loading, ids and scores are unchanged, and a player is online exactly when its id was saved or the saved list is empty |
| Roster.RestoreRoundTrip | app/balance/page.tsx:83-90 | saving then loading gives the same roster exactly when somebody was online |
| Roster.BalancePage.constructor | app/balance/page.tsx:83-92 | the loaded roster with empty teams and the pool in sync |
| Roster.BalancePage.ToggleOnline | app/balance/page.tsx:97-110 | an unknown id changes nothing; otherwise only the target's flag flips; a player who was online leaves both teams, and teams are untouched otherwise; the pool stays in sync |
| Roster.BalancePage.MoveToTeam1 | app/balance/page.tsx:112-114 | the player is appended to team 1, and the pool loses exactly that id |
| Roster.BalancePage.MoveToTeam2 | app/balance/page.tsx:116-118 | the player is appended to team 2, and the pool loses exactly that id |
| Roster.BalancePage.RemoveFromTeam1 | app/balance/page.tsx:120-122 | every player with that id leaves team 1; nothing else changes but the pool |
| Roster.BalancePage.RemoveFromTeam2 | app/balance/page.tsx:124-126 | every player with that id leaves team 2; nothing else changes but the pool |
| Roster.BalancePage.ResetAll | app/balance/page.tsx:268-273 | both teams are empty, everybody is offline and the pool is empty |
| Roster.BalancePage.ResetTeams | app/balance/page.tsx:275-278 | both teams are empty and the pool is every online player |
| Roster.BalancePage.BalanceTeams | app/balance/page.tsx:132-166 | a refusal changes nothing. Otherwise `need1` is floor(n/2) - `|team1|` and `need2` is n - floor(n/2) - `|team2|`; each team gets its part of `BalanceSplit` appended and ends with floor(n/2) and ceil(n/2) players respectively; the parts are exactly the old pool, and the pool is empty |
| Roster.BalancePage.ApplySplit | app/balance/page.tsx:163-165 | the parts are appended to the pre-assigned players and the pool is emptied, keeping the page in sync |
| Roster.Refusal | app/balance/page.tsx:138-157 | an empty pool, an overfull team or a count mismatch (with the needed and available counts) is refused in that order, and the request goes ahead exactly when none applies |
| Roster.RankOf | app/balance/page.tsx:284-290 | the rank for each of the thresholds 8.5, 7, 5 and 2.5, each inclusive, as an if-and-only-if per rank |
| Roster.RankMonotone | app/balance/page.tsx:284-290 | a higher score never gets a lower rank |
| Timeline.RangeStart | app/timeline/page.tsx:72-84 | no contract of its own: the clock reading `now` minus 1, 7, 30 or 90 days |
| Timeline.TimeRange.BucketSize | app/timeline/page.tsx:185-193 | the bucket width of a range is never zero, so the bucket loop always moves on |
| Timeline.SetVoteLookup | app/timeline/page.tsx:225-228 | after `set`, the voter has the new score and every other voter keeps theirs; voters keep their order, and the map grows exactly when the voter is new |
| Timeline.ReplayLastWins | app/timeline/page.tsx:219-233 | after a replay, a tracked player's map gives each voter the score of their last vote in the replayed entries, or the earlier score if they did not vote again |
| Timeline.ApplyRangeSplit | app/timeline/page.tsx:215-233 | replaying one range of entries and then the next equals replaying both at once |
| Timeline.EmptyTallies | app/timeline/page.tsx:200 | there is one empty map for exactly the selected players |
| Timeline.SeedTallies | app/timeline/page.tsx:199-208 | the two seeding loops produce the empty maps with the baseline votes replayed in order, skipping players not selected |
| Timeline.Consume | app/timeline/page.tsx:219-233 | `historyIndex` never moves back and never passes the end |
| Timeline.ConsumeStops | app/timeline/page.tsx:219-233 | every entry consumed in a bucket is not later than the bucket's end, and the loop stops only at the end or at a later entry |
| Timeline.ConsumeSorted | app/timeline/page.tsx:219-233 | on the sorted history, every entry left over is later than the bucket's end |
| Timeline.ConsumeCompose | app/timeline/page.tsx:215-233 | consuming up to one limit and then up to a later one goes exactly as far as consuming up to the later limit |
| Timeline.ApplyBucket | app/timeline/page.tsx:219-233 | the inner `while` loop stops at `Consume` and leaves the maps with exactly those entries replayed |
| Timeline.Run | app/timeline/page.tsx:215-255 | no contract of its own: the bucket loop from a bucket start on; `RunStamps`, `RunConsumes`, `RunLength` and `RunEndsTwice` state what it does |
| Timeline.ValuesMembers | app/timeline/page.tsx:242-250 | a point holds a value for exactly the selected players with votes, and the value is their average; `hasData` holds exactly when such a player exists |
| Timeline.PointAtSome | app/timeline/page.tsx:236-254 | a bucket has a point exactly when some selected player has votes; the point is stamped with the bucket's end and is not empty |
| Timeline.BuildPoint | app/timeline/page.tsx:236-250 | the `forEach` computes `hasData` and the point that `PointAt` describes |
| Timeline.RunStamps | app/timeline/page.tsx:215-255 | every emitted point is non-empty, is stamped between the first bucket's start and `endDate`, and the stamps never decrease |
| Timeline.RunConsumes | app/timeline/page.tsx:215-233 | the replay consumes exactly the entries up to `endDate`, each once and in order, and its maps are the starting maps with exactly those replayed |
| Timeline.RunLength | app/timeline/page.tsx:215-255 | the loop emits at most `(endDate - bucketStart) / size + 1` points, one per bucket start up to `endDate`, and none when the first bucket starts after `endDate` |
| Timeline.DivStep | app/timeline/page.tsx:215 | taking one bucket width off a span of at least one width takes one off the number of whole widths in it |
| Timeline.RunEndsTwice | app/timeline/page.tsx:215-216 | from a bucket one width before `endDate` the `<=` loop makes a second, zero-width pass at `endDate` that applies nothing new, so the run ends with the same point twice, both stamped `endDate`, or with no point |
| Timeline.Buckets | app/timeline/page.tsx:215-255 | the bucket loop emits exactly the points of `Run` |
| Timeline.Bucket | app/timeline/page.tsx:216-254 | one pass emits the bucket's point, when it has one, followed by the rest of the run, and keeps the tracked players |
| Timeline.CalculateTimeline | app/timeline/page.tsx:169-258 | returns `TimelinePoints`: nothing for an empty history; otherwise the replay of the sorted history from max(earliest vote, range start), seeded from the baseline |
| Timeline.Replayed | app/timeline/page.tsx:169-258 | no contract of its own: the replay `calculateTimeline` performs, nothing for an empty history and otherwise `Run` over the sorted history from max(earliest vote, range start), seeded with the baseline; `TimelineShape` and `TimelineConsumes` state its properties |
| Timeline.Earliest | app/timeline/page.tsx:176 | the earliest vote time, attained by some vote |
| Timeline.SortedFirstIsEarliest | app/timeline/page.tsx:173-176 | the first entry of the sorted history carries the earliest time |
| Timeline.TimelineShape | app/timeline/page.tsx:170-254 | an empty history gives no points. Otherwise every point is stamped between max(earliest vote, range start) and `endDate`; stamps never decrease and no point is empty |
| Timeline.TimelineConsumes | app/timeline/page.tsx:211-233 | at the end the maps are the baseline with a prefix of the sorted history replayed; every entry of that prefix is at or before `endDate`, and when the first bucket is not after `endDate`, every entry left is after it |
| Timeline.ScoresOf | app/timeline/page.tsx:264-266 | the series is no longer than the timeline, and each score is a value of this player in some point; `ScoresOfPositions` states its order and that each holding point gives exactly one score |
| Timeline.ScoresOfPositions | app/timeline/page.tsx:264-286 | score j of the series is the value at the j-th point that holds the player, the positions strictly increase, and every holding point is among them, so the trend's `slice(-3)` and `slice(-6, -3)` are the values at the last six holding points |
| Timeline.HoldersIndexed | app/timeline/page.tsx:264-266 | score j of the series is the player's value at the j-th holding position |
| Timeline.HoldersIncreasing | app/timeline/page.tsx:264-266 | the holding positions strictly increase, so the series keeps point order |
| Timeline.HoldersAll | app/timeline/page.tsx:264-266 | every point that holds the player is among the holding positions |
| Timeline.ScoresOfEmpty | app/timeline/page.tsx:264-271 | the series is empty exactly when no point holds the player |
| Timeline.ScoresOfCovers | app/timeline/page.tsx:264-266 | every point that holds the player contributes its value to the series |
| Timeline.ScoresOfLast | app/timeline/page.tsx:264-273 | the last score of a nonempty series is the value at some point holding the player after which no point holds them |
| Timeline.Peak | app/timeline/page.tsx:274 | a score of the series, no smaller than any |
| Timeline.Low | app/timeline/page.tsx:275 | a score of the series, no larger than any |
| Timeline.Sum | app/timeline/page.tsx:281-284 | no contract of its own: the reduce that sums a window; `SumBounds` bounds it |
| Timeline.SumBounds | app/timeline/page.tsx:281-284 | a sum of values between two bounds lies between the count times each bound |
| Timeline.Mean | app/timeline/page.tsx:281-284 | no contract of its own: a window's sum divided by its length; `MeanBounds` bounds it |
| Timeline.StatsOf | app/timeline/page.tsx:268-290 | zeros and stable for no scores; otherwise current is the last score, with low <= current <= peak, peak and low are the series' extremes, and the trend is `TrendOf` |
| Timeline.TrendOf | app/timeline/page.tsx:277-288 | fewer than 4 scores always give a stable trend; `TrendWindows` characterises up and down for 4 or more |
| Timeline.TrendWindows | app/timeline/page.tsx:278-288 | with 4 or more scores the trend is up exactly when the last 3 average more than 0.1 above the up to 3 scores before them, and down exactly when more than 0.1 below |
| Timeline.TrendRising | app/timeline/page.tsx:278-285 | when the last three scores all beat every score of the window of up to 3 before them by more than 0.1, the trend is up, whatever the older scores are |
| Timeline.TrendFalling | app/timeline/page.tsx:278-286 | when the last three scores all fall below every score of the window of up to 3 before them by more than 0.1, the trend is down, whatever the older scores are |
| Timeline.MeanBounds | app/timeline/page.tsx:281-284 | the mean of values within bounds lies within the bounds |
| Timeline.CalculatePlayerStats | app/timeline/page.tsx:260-294 | one entry for exactly the selected players, each the summary of that player's series |
| Timeline.PlayerStatsOfPoints | app/timeline/page.tsx:262-291 | read against the timeline: zeros and stable when no point holds the player; otherwise current is the player's value at the last point holding them, every value of theirs lies between low and peak, and peak and low are values of some point |
| Timeline.StatsCurrentLast | app/timeline/page.tsx:273 | the current value is the player's value at the last point that holds them |
| Timeline.StatsBoundPoints | app/timeline/page.tsx:274-275 | every value the player has in the timeline lies between low and peak |
| Timeline.StatsExtremesAttained | app/timeline/page.tsx:274-275 | peak and low are each the player's value at some point |
| Timeline.Remove | app/timeline/page.tsx:299 | deleting keeps every other member, and on a set it removes exactly one element when present |
| Timeline.RemoveAbsent | app/timeline/page.tsx:299 | deleting a player who is not selected changes nothing |
| Timeline.RemoveAt | app/timeline/page.tsx:299 | deleting the only occurrence of a player cuts it out and keeps the others in order |
| Timeline.RemoveCutsOut | app/timeline/page.tsx:299 | on a set, deleting a member cuts its one occurrence out, so the others keep their order and those after it move one position, and so one colour, forward |
| Timeline.IndexOf | app/timeline/page.tsx:315 | -1 exactly when absent, otherwise the first position of the id |
| Timeline.PlayerColor | app/timeline/page.tsx:314-317 | a player has a colour exactly when selected (an unselected one gets `undefined`), and it is one of the palette's |
| Timeline.DistinctColors | app/timeline/page.tsx:314-317 | within the cap of 8, different selected players get different colours |
| Timeline.ColorsDistinct | app/timeline/page.tsx:25-34 | the eight colours are pairwise different |
| Timeline.TimelineSelection.constructor | app/timeline/page.tsx:38 | the selection starts empty |
| Timeline.TimelineSelection.TogglePlayer | app/timeline/page.tsx:296-308 | a selected player is removed; a new one is appended unless 8 are already selected, in which case the call is refused and nothing changes; the selection stays a set of at most 8 |
| History.NatToStringRoundTrip | app/history/page.tsx:67 | reading back the decimal numeral of a count gives the count |
| History.FormatDate | app/history/page.tsx:58-72 | no contract of its own: the four relative phrasings and the calendar date, chosen by floor-divided minutes, hours and days; the lemmas below state it branch by branch |
| History.FormatJustNow | app/history/page.tsx:62-66 | "Just now" exactly when less than a minute has passed, including votes stamped in the future |
| History.FormatMinutes | app/history/page.tsx:67 | from one minute up to an hour, the phrase counts 1 to 59 whole minutes |
| History.FormatHours | app/history/page.tsx:68 | from one hour up to a day, the phrase counts 1 to 23 whole hours |
| History.FormatDays | app/history/page.tsx:69 | from one day up to a week, the phrase counts 1 to 6 whole days |
| History.FormatCalendar | app/history/page.tsx:71 | the calendar date is shown exactly from 7 days on |
| History.AgoPlural | app/history/page.tsx:67-69 | the phrase ends in "s ago" exactly when the count is not 1 |
| History.ScoreBand | app/history/page.tsx:74-79 | green exactly from 8, blue from 6 below 8, yellow from 4 below 6, orange below 4 |
| History.ScoreColor | app/history/page.tsx:74-79 | no contract of its own: the class of the score's band; `ScoreColorDistinguishes` states that the class tells the band |
| History.ScoreBandMonotone | app/history/page.tsx:74-79 | a higher score never gets a lower band |
| History.ScoreColorDistinguishes | app/history/page.tsx:74-79 | two scores get the same class exactly when they are in the same band |

## Left out

- Supabase queries and authentication are not modelled: `loadPlayers`, `loadTimelineData` and `loadHistory`. Their results are the parameters of the operations.
- The no-history branch of `loadTimelineData` (app/timeline/page.tsx:115-158) is not modelled. It draws a flat line from fetched data; `calculateTimeline` itself is modelled.
- Session storage, its JSON encoding and its error handling are not modelled. Only the list of ids saved (`OnlineIds`) and the load rule (`Restore`) are.
- Floating point is not modelled: scores and averages are exact reals. `toFixed(2)` rounding and `parseFloat` coercion are left out.
- Date labels (`toLocaleDateString`) are not modelled. The `date` field of a point is dropped, and the history page's calendar date is the constant `CalendarDate`.
- The clock is not read: `now`, `endDate` and `diffMs` are parameters.
- A point keeps player values apart from its `timestamp`. A player id equal to `"date"` or `"timestamp"` would overwrite those keys in the source; this is not modelled.
- The `default` branch of `getBucketSize` is not modelled; it is unreachable for the four ranges.
- Drag and drop, rendering, the display name helper and avatar URLs are not modelled. So are the emoji of `getRankTitle`; the titles and colours are modelled.
- React state batching is not modelled. Each setter is a sequential field update, and the pool-sync effect runs at the end of each handler.
- `Choices.Backtrack`: `current` is passed by value rather than pushed and popped in place, and `result` is threaded through as a value. The in-place aliasing of the source is not modelled.
- JavaScript's sort is modelled as a stable insertion sort. Stability matters only for ties in score or in vote time.
- Timeline.TimelineShape: states bounds and order of the stamps. The fact that each stamp is exactly min(bucketStart + size, endDate) of its bucket is stated one bucket at a time, by `PointAtSome`.
- Balancer.ExactOptimal: its optimality and partition claims assume distinct user ids and `need1 + need2` equal to the pool size. `balanceTeams` guarantees the second, and user ids are primary keys.
