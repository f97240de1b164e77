# Greedy comedy-night itinerary builder

This project models `generate_itinerary` of `server.py` in Dafny. The function
takes a request and returns a same-day itinerary of comedy shows. It has three parts:

- **Skip filter** (`skip_filter.dfy`, module `SkipFilter`). It fetches the venue
  catalog minus the venues that the user's skip rules exclude.
- **Feasibility and scoring** (`scoring.dfy`, module `Scoring`). From the current
  clock and position, it decides for each remaining venue whether the venue can
  be reached in time by walking or by subway, and at what cost (travel plus
  idle minutes). It keeps the first venue of least cost.
- **Builder** (`itinerary.dfy`, module `Itinerary`). Starting at Union Square at
  the requested start time, it repeatedly appends the chosen venue as a stop. It
  then moves the clock to five minutes after that show, moves the position to the
  venue, and removes the venue from the working list. It stops when the list is
  empty or the stop limit is reached.

`data.dfy` (module `Data`) holds the shared shapes:

- venues;
- requests;
- whole-minute times;
- distances in miles.

The distance function is a parameter of every operation. `GenerateItinerary` is
an imperative method with the source's two nested loops. It is proved equal to
the functional definition `Run`. The ordering, provenance, id and timing
properties are proved about `Run`.

### Where the code and its written description disagree (the model follows the code)

- **`one_time` and `forever` rules have no effect.** The query that names them
  (server.py:58) runs on the same cursor as the next query and is never
  fetched. Only the `week` query (server.py:59) decides what is fetched.
- **The `week` date test does not involve a stored date.** The test `? <= ?`
  compares two bound parameters: the request date and its week end, as TEXT. For
  zero-padded dates it always holds, so every `week` row excludes its venue on
  every date. For a date written without padding, such as `2025-8-3`, it fails, and no
  `week` row has any effect.
- **Rules are not per user.** The rules of every user count.
- **SQL NULL semantics.** A `week` row whose venue is NULL makes `NOT IN`
  NULL for every venue, so the fetch is empty.
- **No exit when nothing is feasible.** When an iteration finds no feasible
  venue while venues remain and stops are still allowed, the `while` loop of
  server.py:74 repeats the same iteration for ever. It never reaches "done".
  The method reports this case as `Stuck` (see Findings).
- **Cost is measured modulo a day.** The cost is travel minutes plus
  `timedelta.seconds` of the idle gap. With a negative buffer the gap can be
  negative, and `.seconds` then wraps it modulo one day. Only with a buffer ≥ 0
  is the cost simply the time until the show. With a buffer > −5, show times
  strictly increase along the itinerary.

## Model

| member | source | states |
|---|---|---|
| SkipFilter.TextLe | server.py:59 | The `? <= ?` test as SQLite BINARY text comparison: see `SkipFilter.TextLeIsLexicographic`. |
| SkipFilter.TextLeIsLexicographic | server.py:59 | `a <= b` as text iff `a` is a prefix of `b`, or at the first position where they differ `a` has the smaller character. |
| SkipFilter.WeekSkipIds | server.py:59 | The subquery yields a venue id (or NULL) exactly when some `week` row carries it and the request date is at most the week end as text. It yields nothing when the date test fails. |
| SkipFilter.Filter | server.py:58-60 | A venue is fetched iff it is in the catalog and no `week` row (of any user) names it or has a NULL venue, given that the date test holds. Never more venues than the catalog. |
| SkipFilter.FilterKeepsOrder | server.py:59-60 | The fetched venues keep catalog order (a subsequence of the catalog). |
| SkipFilter.FilterKeepsIdsDistinct | server.py:59-60 | A catalog without repeated ids yields a fetch without repeated ids. |
| SkipFilter.OtherRuleTypesIgnored | server.py:58-59 | Inserting a rule of any type other than `week`, anywhere among the rows, does not change what is fetched. |
| SkipFilter.ForeverRuleKeepsVenue | server.py:58-60 | A `forever` rule for a catalog venue, inserted anywhere among rows that leave the venue in, still leaves it in. |
| SkipFilter.NullWeekRowEmptiesCatalog | server.py:59-60 | A `week` row with a NULL venue, when the date test holds, empties the fetch. |
| SkipFilter.DatesOutOfOrderKeepAll | server.py:59-60 | When the request date sorts after the week end as text, the whole catalog is fetched. |
| SkipFilter.UnpaddedDateDisablesWeekRules | server.py:54-59 | `2025-8-3` sorts after its week end `2025-08-10`, so the date test fails for it. |
| Scoring.TravelFor | server.py:85-92 | Walk iff walking is accepted and the distance is at most 1 mile. Otherwise subway iff it is accepted and the distance is at most 3 miles. Otherwise unreachable. Walking minutes are the floor of distance/0.05 (0..20). Subway minutes are the floor of distance/0.5 plus 5 (5..11). |
| Scoring.Cost | server.py:94 | The cost is the travel minutes plus an idle part in 0..1439 that is congruent, modulo one day, to the minutes from arrival to the show (`timedelta.seconds`). |
| Scoring.Assess | server.py:80-94 | A feasible venue passes the three tests: its show is at least the buffer after now, it is reachable, and its show is at least travel plus buffer after now; its leg is its travel choice, with non-negative minutes. |
| Scoring.AssessIsFeasibility | server.py:80-94 | Conversely, a venue is feasible iff it passes those three tests, and a feasible venue's cost is its travel minutes plus the idle minutes until the show taken modulo one day (in 0..1439). |
| Scoring.CostIsTimeUntilShow | server.py:93-94 | With a buffer ≥ 0, a feasible venue's cost is exactly the minutes from now until its show. |
| Scoring.BestUpTo | server.py:79-98 | After the first `k` venues the candidate, if any, is one of them, feasible, with its own leg and cost; `Scoring.BestUpToIsFirstMinimum` pins which one. |
| Scoring.BestUpToIsFirstMinimum | server.py:75-98 | The pass finds nothing iff no venue is feasible. Otherwise the venue it keeps is exactly the first feasible venue of least cost (cheapest of all, strictly cheaper than every earlier feasible venue). |
| Scoring.FirstMinimumHasNoEarlierCopy | server.py:95-98 | No equal copy of the kept venue comes before it in the list. |
| Scoring.BestIsEarliestShow | server.py:93-98 | With a buffer ≥ 0, the kept venue has the earliest show among feasible venues, and the first such venue in list order. |
| Scoring.SelectBest | server.py:75-98 | The inner loop returns the first minimum-cost feasible venue with its leg and cost, or nothing iff no venue is feasible. |
| Itinerary.RemoveFirst | server.py:111 | `list.remove` of a present venue shortens the list by one and introduces no venue; `Itinerary.RemoveFirstAt` says which copy goes. |
| Itinerary.RemoveFirstAt | server.py:111 | `list.remove` of an element with no earlier copy removes it at its own index and keeps the rest in order. |
| Itinerary.Step | server.py:75-111 | An iteration makes no progress iff no remaining venue is feasible. Otherwise it appends exactly one stop, keeps the earlier stops, and shortens the working list by one. |
| Itinerary.StepTakesFirstMinimum | server.py:95-111 | A productive iteration appends the first minimum-cost venue with its leg. It sets the clock to that show plus 5 and the position to the venue, and removes just that venue from the working list. |
| Itinerary.Run | server.py:74-111 | The builder only appends to the stops. It ends `Finished` iff the loop condition fails, and `Stuck` only where no venue is feasible. |
| Itinerary.Body | server.py:75-111 | One pass of the loop body as written leaves the state unchanged iff the iteration finds no candidate (by `Itinerary.Step`, iff no remaining venue is feasible), and otherwise only appends to the stops. |
| Itinerary.Loop | server.py:74-111 | The loop as written, run for at most `n` passes, only appends to the stops and adds at most `n` of them. |
| Itinerary.StuckLoopsForever | server.py:74-111 | With venues left, room for a stop and nothing feasible, the source loop's state and condition never change, whatever the number of passes. |
| Itinerary.RunIsLoop | server.py:74-111 | After as many passes as there are venues, the source loop is in `Run`'s final state. Its condition is then still true iff `Run` ends `Stuck`. |
| Itinerary.SourceHangsWithoutFeasibleVenue | server.py:74-111 | A concrete request on which the source loop never exits: one venue whose show is at the start time, with a 15-minute buffer. |
| Itinerary.ShowGaps | server.py:82-109 | In a well-timed itinerary, the first show is at least the buffer after the start, and each show is at least 5 plus the buffer after the previous one. |
| Itinerary.ShowTimesIncrease | server.py:109 | Gaps of 5 plus a buffer above −5 make show times strictly increase. |
| Itinerary.ItineraryFromCatalog | server.py:58-111 | The itinerary has at most `maxSpots` stops. Each stop is a catalog venue that no `week` rule excludes. |
| Itinerary.ItineraryIdsDistinct | server.py:59-111 | When catalog ids are distinct, no venue appears twice in the itinerary. |
| Itinerary.ItineraryTimed | server.py:82-111 | Every leg is the travel choice from the previous stop (or Union Square) and arrives with the buffer to spare. With a buffer above −5, show times strictly increase. |
| Itinerary.GenerateItinerary | server.py:49-114 | The method's result is `Run` from the filtered catalog. It has at most `maxSpots` stops, all from the catalog and unskipped, distinct when catalog ids are, every leg fitting in time, and shows strictly increasing when the buffer is above −5. |

## Left out

- The haversine formula (server.py:38-46) and floating-point rounding. Distance is a parameter: any function with non-negative results.
- Opening the database (`init_db`), the SQL engine itself and closing the connection. The catalog and skip rows are inputs, in table order.
- The query of the mock user's rules and the dictionary built from it (server.py:52-53). Its result is never used.
- Date parsing and formatting (server.py:54-55, 63, 81, 109). The request date and its week end are text inputs, and times are minutes since midnight. The loop sees a clock past midnight (up to 23:59 + 5 minutes) as later than every show of the day, so with a non-negative buffer no venue is feasible then; with a negative buffer a show up to that many minutes earlier can still be. The model's clock agrees in both cases.
- The travel description strings (server.py:87, 90) and the JSON field names of a stop. A stop keeps the venue and its leg.
- `transport` is modelled as a set of modes. The source's `'walk' in transport` is a substring or membership test on whatever the form sends.
- Exceptions from `int()` or `strptime` on malformed form fields. The source does not validate the request.
- The `OverflowError` that `current_time + timedelta(minutes=...)` (server.py:82, 93) raises when the buffer or travel time puts the result outside the range of `datetime` (a buffer of 10**10 minutes, say). The model's unbounded clock returns `Stuck` or an itinerary instead.
- The database contents. As written, `init_db()` (server.py:50) opens a fresh in-memory database, so the skips table is empty and the catalog is the four seed rows (server.py:28-33) on every call; the filter then never excludes anything. The model takes the catalog and the skip rows as arbitrary inputs, which is what the queries do with whatever the tables hold.
- The HTTP routes (`/generate`, `/skip`, `/outreach`) and the outreach templates. They are not part of this model.

## Findings

| source | as written | input that shows it | evidently intended | confidence | as-written member | corrected member |
|---|---|---|---|---|---|---|
| server.py:74-111 | The `while` loop has no exit when an iteration finds no feasible venue, so it repeats the same iteration for ever. | Start 16:30, buffer 15, one venue with its show at 16:30, walk and subway accepted. | Stop and return the stops so far once nothing is feasible. | not executed | Itinerary.SourceHangsWithoutFeasibleVenue | Itinerary.GenerateItinerary |
