/** The greedy insertion builder of `generate_itinerary` (server.py:49-114).

    Starting at Union Square at the requested start time with the filtered
    catalog as its working list, each iteration keeps the cheapest feasible
    venue (module Scoring), appends a stop for it, moves the clock to five
    minutes after its show and the position to the venue, and removes it from
    the working list. The `while` loop of server.py:74 runs while venues
    remain and the stop limit is not reached; it has no exit for an iteration
    that finds no feasible venue, which then repeats unchanged for ever. The
    model reports that case as `Stuck`. */
module Itinerary {
  import opened Data
  import opened Scoring
  import opened SkipFilter

  /** One entry of the result (server.py:101-108): the venue (its id, name,
      address, show time and notes; its coordinates are where the next leg
      starts) and the leg that reaches it. */
  datatype Stop = Stop(venue: Venue, travel: Leg)

  /** The local state of the builder: `current_time`, the current position,
      `itinerary` and the working list `venues`. */
  datatype State = State(clock: int, pos: Position, stops: seq<Stop>, remaining: seq<Venue>)

  /** How the builder ends: the loop condition failed, or an iteration found
      no feasible venue (where the source loops for ever). */
  datatype Outcome = Finished | Stuck

  function Initial(filtered: seq<Venue>, req: Request): State {
    State(req.start, UnionSquare, [], filtered)
  }

  /** The condition of the `while` at server.py:74. */
  predicate Guard(s: State, req: Request) {
    s.remaining != [] && |s.stops| < req.maxSpots
  }

  /** Python's `list.remove`: drops the first element equal to `v`. */
  function RemoveFirst(vs: seq<Venue>, v: Venue): (r: seq<Venue>)
    requires v in vs
    ensures |r| == |vs| - 1
    ensures forall w :: w in r ==> w in vs
  {
    if vs[0] == v then vs[1..] else [vs[0]] + RemoveFirst(vs[1..], v)
  }

  /** Removing the first copy of an element that has no earlier copy removes
      it at its own index and keeps the others in order. */
  lemma {:induction false} RemoveFirstAt(vs: seq<Venue>, i: nat)
    requires i < |vs|
    requires forall j :: 0 <= j < i ==> vs[j] != vs[i]
    ensures RemoveFirst(vs, vs[i]) == vs[..i] + vs[i + 1..]
  {
    if i == 0 {
      assert vs[..0] + vs[1..] == vs[1..];
    } else {
      var tail := vs[1..];
      assert tail[i - 1] == vs[i];
      assert forall j :: 0 <= j < i - 1 ==> tail[j] != tail[i - 1] by {
        forall j | 0 <= j < i - 1 ensures tail[j] != tail[i - 1] {
          assert tail[j] == vs[j + 1];
        }
      }
      RemoveFirstAt(tail, i - 1);
      assert RemoveFirst(vs, vs[i]) == [vs[0]] + RemoveFirst(tail, vs[i]);
      assert tail[..i - 1] == vs[1..i];
      assert tail[i..] == vs[i + 1..];
      assert [vs[0]] + vs[1..i] == vs[..i];
    }
  }

  /** One iteration that makes progress (server.py:75-111), or `None` when
      no remaining venue is feasible. */
  function Step(s: State, req: Request, dist: Distance): (r: Option<State>)
    ensures r.None? <==> forall j :: 0 <= j < |s.remaining| ==> Assess(s.remaining[j], Here(s.clock, s.pos), req, dist).None?
    ensures r.Some? ==> |r.value.remaining| == |s.remaining| - 1
    ensures r.Some? ==> |r.value.stops| == |s.stops| + 1 && r.value.stops[..|s.stops|] == s.stops
  {
    var here := Here(s.clock, s.pos);
    BestUpToIsFirstMinimum(s.remaining, |s.remaining|, here, req, dist);
    match Best(s.remaining, here, req, dist)
    case None => None
    case Some(c) =>
      var v := s.remaining[c.index];
      Some(State(v.show + 5, v.pos, s.stops + [Stop(v, c.leg)], RemoveFirst(s.remaining, v)))
  }

  /** A productive iteration appends exactly one stop, for the first venue of
      minimum cost, with the leg that reaches it; the clock becomes its show
      time plus five minutes, the position becomes the venue's, and the venue
      leaves the working list while the others keep their order. */
  lemma StepTakesFirstMinimum(s: State, req: Request, dist: Distance)
    requires Step(s, req, dist).Some?
    ensures var here := Here(s.clock, s.pos);
            && Best(s.remaining, here, req, dist).Some?
            && var i := Best(s.remaining, here, req, dist).value.index;
               var v := s.remaining[i];
               && IsFirstMinimum(s.remaining, |s.remaining|, i, here, req, dist)
               && Assess(v, here, req, dist).Some?
               && Step(s, req, dist).value ==
                    State(v.show + 5, v.pos, s.stops + [Stop(v, Assess(v, here, req, dist).value.leg)],
                          s.remaining[..i] + s.remaining[i + 1..])
  {
    var here := Here(s.clock, s.pos);
    BestUpToIsFirstMinimum(s.remaining, |s.remaining|, here, req, dist);
    var i := Best(s.remaining, here, req, dist).value.index;
    FirstMinimumHasNoEarlierCopy(s.remaining, i, here, req, dist);
    RemoveFirstAt(s.remaining, i);
  }

  /** The builder from state `s` to its end, with the way it ended. */
  function Run(s: State, req: Request, dist: Distance): (r: (State, Outcome))
    ensures |r.0.stops| >= |s.stops| && r.0.stops[..|s.stops|] == s.stops
    ensures r.1 == Finished <==> !Guard(r.0, req)
    ensures r.1 == Stuck ==> Step(r.0, req, dist).None?
    decreases |s.remaining|
  {
    if !Guard(s, req) then (s, Finished)
    else
      match Step(s, req, dist)
      case None => (s, Stuck)
      case Some(t) => Run(t, req, dist)
  }

  /** One pass of the source's `while` body as written: when no venue is
      feasible, `best_venue` stays `None` and nothing changes. */
  function Body(s: State, req: Request, dist: Distance): (r: State)
    ensures r == s <==> Step(s, req, dist).None?
    ensures |r.stops| >= |s.stops| && r.stops[..|s.stops|] == s.stops
  {
    match Step(s, req, dist)
    case None => s
    case Some(t) => t
  }

  /** The state of the source loop after at most `n` passes. */
  function Loop(s: State, req: Request, dist: Distance, n: nat): (r: State)
    ensures |s.stops| <= |r.stops| <= |s.stops| + n && r.stops[..|s.stops|] == s.stops
    decreases n
  {
    if n == 0 || !Guard(s, req) then s else Loop(Body(s, req, dist), req, dist, n - 1)
  }

  /** With venues left, room for a stop and no feasible venue, the source
      loop's condition stays true and its state never changes. */
  lemma {:induction false} StuckLoopsForever(s: State, req: Request, dist: Distance, n: nat)
    requires Guard(s, req) && Step(s, req, dist).None?
    ensures Loop(s, req, dist, n) == s && Guard(Loop(s, req, dist, n), req)
    decreases n
  {
    if n > 0 {
      assert Body(s, req, dist) == s;
      StuckLoopsForever(s, req, dist, n - 1);
    }
  }

  /** `Run` is what the source loop reaches: after as many passes as there are
      venues, the loop is in `Run`'s final state, and stays there. With
      `Finished` the loop has exited; with `Stuck` it never exits. */
  lemma {:induction false} RunIsLoop(s: State, req: Request, dist: Distance, n: nat)
    requires n >= |s.remaining|
    ensures Loop(s, req, dist, n) == Run(s, req, dist).0
    ensures Run(s, req, dist).1 == Stuck <==> Guard(Loop(s, req, dist, n), req)
    decreases |s.remaining|
  {
    if Guard(s, req) && Step(s, req, dist).Some? {
      var t := Step(s, req, dist).value;
      RunIsLoop(t, req, dist, n - 1);
      PassAfterStep(s, t, req, dist, n);
    } else {
      NoPassAfterEnd(s, req, dist, n);
    }
  }

  /** Where `Run` ends, the source loop either has exited or repeats the
      same state. */
  lemma NoPassAfterEnd(s: State, req: Request, dist: Distance, n: nat)
    requires !Guard(s, req) || Step(s, req, dist).None?
    ensures Loop(s, req, dist, n) == Run(s, req, dist).0
    ensures Run(s, req, dist).1 == Stuck <==> Guard(Loop(s, req, dist, n), req)
  {
    if Guard(s, req) {
      StuckLoopsForever(s, req, dist, n);
    }
  }


  /** A productive pass moves both the source loop and `Run` on to the
      step's result. */
  lemma PassAfterStep(s: State, t: State, req: Request, dist: Distance, n: nat)
    requires Guard(s, req) && Step(s, req, dist) == Some(t) && n > 0
    requires Loop(t, req, dist, n - 1) == Run(t, req, dist).0
    requires Run(t, req, dist).1 == Stuck <==> Guard(Loop(t, req, dist, n - 1), req)
    ensures Loop(s, req, dist, n) == Run(s, req, dist).0
    ensures Run(s, req, dist).1 == Stuck <==> Guard(Loop(s, req, dist, n), req)
  {
    assert Body(s, req, dist) == t;
    assert Loop(s, req, dist, n) == Loop(t, req, dist, n - 1);
    assert Run(s, req, dist) == Run(t, req, dist);
  }

  /** A nothing-feasible input on which the source never returns: start at
      16:30 with a 15-minute buffer and a single venue whose show is at 16:30. */
  lemma SourceHangsWithoutFeasibleVenue(dist: Distance, n: nat)
    ensures var v := Venue(1, "St. Marks Comedy Club", "12 St Marks Pl, New York, NY 10003",
                           Position(40.7282, -73.9872), 990, "$5, beginner-friendly");
            var req := Request("2025-08-03", "2025-08-10", 990, 4, 15, {Walk, Subway});
            var s := Initial([v], req);
            && Run(s, req, dist) == (s, Stuck)
            && Loop(s, req, dist, n) == s && Guard(Loop(s, req, dist, n), req)
  {
    var v := Venue(1, "St. Marks Comedy Club", "12 St Marks Pl, New York, NY 10003",
                   Position(40.7282, -73.9872), 990, "$5, beginner-friendly");
    var req := Request("2025-08-03", "2025-08-10", 990, 4, 15, {Walk, Subway});
    var s := Initial([v], req);
    assert Assess(s.remaining[0], Here(s.clock, s.pos), req, dist).None?;
    StuckLoopsForever(s, req, dist, n);
  }

  /** The time the traveller leaves for stop `k`: the start time, or five
      minutes after the previous show. */
  function DepartureBefore(stops: seq<Stop>, k: nat, req: Request): int
    requires k <= |stops|
  {
    if k == 0 then req.start else stops[k - 1].venue.show + 5
  }

  /** Where the traveller leaves from for stop `k`. */
  function OriginBefore(stops: seq<Stop>, k: nat): Position
    requires k <= |stops|
  {
    if k == 0 then UnionSquare else stops[k - 1].venue.pos
  }

  /** The stop is reached from `origin` by the travel choice for that
      distance, and its show is at least travel plus buffer after `departure`
      (server.py:82-93). */
  ghost predicate LegFits(stop: Stop, origin: Position, departure: int, req: Request, dist: Distance) {
    && TravelFor(dist(origin, stop.venue.pos), req.modes) == Some(stop.travel)
    && stop.venue.show >= departure + stop.travel.minutes + req.buffer
  }

  /** Every stop fits after the one before it (or after the start). */
  ghost predicate WellTimed(stops: seq<Stop>, req: Request, dist: Distance) {
    forall k :: 0 <= k < |stops| ==> LegFits(stops[k], OriginBefore(stops, k), DepartureBefore(stops, k, req), req, dist)
  }

  /** The clock and the position are where the last stop left them, and every
      stop was reachable in time. */
  ghost predicate Timed(s: State, req: Request, dist: Distance) {
    && s.clock == DepartureBefore(s.stops, |s.stops|, req)
    && s.pos == OriginBefore(s.stops, |s.stops|)
    && WellTimed(s.stops, req, dist)
  }

  /** No more than `maxSpots` stops, and every stop and every remaining venue
      comes from the filtered catalog. */
  ghost predicate FromCatalog(s: State, filtered: seq<Venue>, req: Request) {
    && (s.stops == [] || |s.stops| <= req.maxSpots)
    && (forall a :: 0 <= a < |s.stops| ==> s.stops[a].venue in filtered)
    && (forall v :: v in s.remaining ==> v in filtered)
  }

  predicate StopIdsDistinct(stops: seq<Stop>) {
    forall a, b :: 0 <= a < b < |stops| ==> stops[a].venue.id != stops[b].venue.id
  }

  /** No id twice among the stops, none twice among the remaining venues, and
      none in both. */
  ghost predicate IdsApart(s: State) {
    && StopIdsDistinct(s.stops)
    && DistinctIds(s.remaining)
    && (forall a, b :: 0 <= a < |s.stops| && 0 <= b < |s.remaining| ==> s.stops[a].venue.id != s.remaining[b].id)
  }

  /** What a productive iteration does, in the few facts the invariants need:
      the chosen venue `remaining[i]` is appended with `leg`, which is its
      travel choice from the current position and fits before its show. */
  lemma StepAppends(s: State, req: Request, dist: Distance) returns (i: nat, leg: Leg)
    requires Step(s, req, dist).Some?
    ensures i < |s.remaining|
    ensures var v := s.remaining[i];
            Step(s, req, dist).value == State(v.show + 5, v.pos, s.stops + [Stop(v, leg)], s.remaining[..i] + s.remaining[i + 1..])
    ensures TravelFor(dist(s.pos, s.remaining[i].pos), req.modes) == Some(leg)
    ensures s.remaining[i].show >= s.clock + leg.minutes + req.buffer
  {
    StepTakesFirstMinimum(s, req, dist);
    var here := Here(s.clock, s.pos);
    i := Best(s.remaining, here, req, dist).value.index;
    leg := Assess(s.remaining[i], here, req, dist).value.leg;
  }

  /** Appending a stop changes no earlier stop's departure or origin. */
  lemma AppendKeepsAnchors(stops: seq<Stop>, extra: Stop, k: nat, req: Request)
    requires k <= |stops|
    ensures (stops + [extra])[..|stops|] == stops
    ensures DepartureBefore(stops + [extra], k, req) == DepartureBefore(stops, k, req)
    ensures OriginBefore(stops + [extra], k) == OriginBefore(stops, k)
  {
    if k > 0 {
      assert (stops + [extra])[k - 1] == stops[k - 1];
    }
  }

  lemma AppendKeepsWellTimed(stops: seq<Stop>, extra: Stop, req: Request, dist: Distance)
    requires WellTimed(stops, req, dist)
    requires LegFits(extra, OriginBefore(stops, |stops|), DepartureBefore(stops, |stops|, req), req, dist)
    ensures WellTimed(stops + [extra], req, dist)
  {
    var longer := stops + [extra];
    forall k | 0 <= k < |longer|
      ensures LegFits(longer[k], OriginBefore(longer, k), DepartureBefore(longer, k, req), req, dist)
    {
      AppendKeepsAnchors(stops, extra, k, req);
      if k < |stops| {
        assert longer[k] == stops[k];
      } else {
        assert longer[k] == extra;
      }
    }
  }

  /** Appending a stop reached by its travel choice in time keeps `Timed`. */
  lemma AppendKeepsTimed(s: State, v: Venue, leg: Leg, rest: seq<Venue>, req: Request, dist: Distance)
    requires Timed(s, req, dist)
    requires TravelFor(dist(s.pos, v.pos), req.modes) == Some(leg)
    requires v.show >= s.clock + leg.minutes + req.buffer
    ensures Timed(State(v.show + 5, v.pos, s.stops + [Stop(v, leg)], rest), req, dist)
  {
    var stops := s.stops + [Stop(v, leg)];
    assert LegFits(Stop(v, leg), s.pos, s.clock, req, dist);
    AppendKeepsWellTimed(s.stops, Stop(v, leg), req, dist);
    assert stops[|s.stops|] == Stop(v, leg);
  }

  lemma StepKeepsTimed(s: State, req: Request, dist: Distance)
    requires Timed(s, req, dist) && Step(s, req, dist).Some?
    ensures Timed(Step(s, req, dist).value, req, dist)
  {
    var i, leg := StepAppends(s, req, dist);
    AppendKeepsTimed(s, s.remaining[i], leg, s.remaining[..i] + s.remaining[i + 1..], req, dist);
  }

  lemma StepKeepsFromCatalog(s: State, filtered: seq<Venue>, req: Request, dist: Distance)
    requires FromCatalog(s, filtered, req) && Guard(s, req) && Step(s, req, dist).Some?
    ensures FromCatalog(Step(s, req, dist).value, filtered, req)
  {
    var i, leg := StepAppends(s, req, dist);
    var t := Step(s, req, dist).value;
    var r := s.remaining;
    assert r[i] in r;
    forall a | 0 <= a < |t.stops| ensures t.stops[a].venue in filtered {
      if a < |s.stops| {
        assert t.stops[a] == s.stops[a];
      }
    }
    forall w | w in t.remaining ensures w in filtered {
      assert w in r[..i] || w in r[i + 1..];
    }
  }

  /** Moving venue `i` from the working list to the end of the stops keeps
      all ids apart. */
  lemma MoveKeepsIdsApart(s: State, i: nat, leg: Leg, clock: int, pos: Position)
    requires IdsApart(s) && i < |s.remaining|
    ensures IdsApart(State(clock, pos, s.stops + [Stop(s.remaining[i], leg)], s.remaining[..i] + s.remaining[i + 1..]))
  {
    var r := s.remaining;
    var stops := s.stops + [Stop(r[i], leg)];
    var rest := r[..i] + r[i + 1..];
    var n := |s.stops|;
    forall b | 0 <= b < |rest| ensures rest[b] == r[if b < i then b else b + 1] {
    }
    forall a | 0 <= a < n ensures stops[a] == s.stops[a] {
    }
    assert stops[n].venue == r[i];
  }

  lemma StepKeepsIdsApart(s: State, req: Request, dist: Distance)
    requires IdsApart(s) && Step(s, req, dist).Some?
    ensures IdsApart(Step(s, req, dist).value)
  {
    var i, leg := StepAppends(s, req, dist);
    MoveKeepsIdsApart(s, i, leg, s.remaining[i].show + 5, s.remaining[i].pos);
  }

  lemma {:induction false} RunKeepsTimed(s: State, req: Request, dist: Distance)
    requires Timed(s, req, dist)
    ensures Timed(Run(s, req, dist).0, req, dist)
    decreases |s.remaining|
  {
    if Guard(s, req) && Step(s, req, dist).Some? {
      StepKeepsTimed(s, req, dist);
      RunKeepsTimed(Step(s, req, dist).value, req, dist);
    }
  }

  lemma {:induction false} RunKeepsFromCatalog(s: State, filtered: seq<Venue>, req: Request, dist: Distance)
    requires FromCatalog(s, filtered, req)
    ensures FromCatalog(Run(s, req, dist).0, filtered, req)
    decreases |s.remaining|
  {
    if Guard(s, req) && Step(s, req, dist).Some? {
      StepKeepsFromCatalog(s, filtered, req, dist);
      RunKeepsFromCatalog(Step(s, req, dist).value, filtered, req, dist);
    }
  }

  lemma {:induction false} RunKeepsIdsApart(s: State, req: Request, dist: Distance)
    requires IdsApart(s)
    ensures IdsApart(Run(s, req, dist).0)
    decreases |s.remaining|
  {
    if Guard(s, req) && Step(s, req, dist).Some? {
      StepKeepsIdsApart(s, req, dist);
      RunKeepsIdsApart(Step(s, req, dist).value, req, dist);
    }
  }

  /** The first show is at least the buffer after the start, and each later
      show at least five minutes plus the buffer after the previous one. */
  lemma ShowGaps(stops: seq<Stop>, req: Request, dist: Distance)
    requires WellTimed(stops, req, dist)
    ensures stops != [] ==> stops[0].venue.show >= req.start + req.buffer
    ensures forall k :: 0 < k < |stops| ==> stops[k - 1].venue.show + 5 + req.buffer <= stops[k].venue.show
  {
    forall k | 0 <= k < |stops| ensures stops[k].travel.minutes >= 0 {
      assert LegFits(stops[k], OriginBefore(stops, k), DepartureBefore(stops, k, req), req, dist);
    }
  }

  /** Gaps of five minutes plus a buffer above -5 make the show times
      strictly increase. */
  lemma {:induction false} ShowTimesIncrease(stops: seq<Stop>, buffer: int)
    requires buffer > -5
    requires forall k :: 0 < k < |stops| ==> stops[k - 1].venue.show + 5 + buffer <= stops[k].venue.show
    ensures forall a, b :: 0 <= a < b < |stops| ==> stops[a].venue.show < stops[b].venue.show
  {
    if |stops| > 1 {
      var front := stops[..|stops| - 1];
      forall k | 0 < k < |front| ensures front[k - 1].venue.show + 5 + buffer <= front[k].venue.show {
        assert front[k - 1] == stops[k - 1] && front[k] == stops[k];
      }
      ShowTimesIncrease(front, buffer);
      forall a, b | 0 <= a < b < |stops| ensures stops[a].venue.show < stops[b].venue.show {
        if b < |stops| - 1 {
          assert front[a] == stops[a] && front[b] == stops[b];
        } else if a < b - 1 {
          assert front[a] == stops[a] && front[b - 1] == stops[b - 1];
        }
      }
    }
  }

  /** The builder's final state for a catalog, its skip rows and a request. */
  function Final(catalog: seq<Venue>, skips: seq<SkipRow>, req: Request, dist: Distance): State {
    Run(Initial(Filter(catalog, skips, req.date, req.weekEnd), req), req, dist).0
  }

  /** An itinerary has at most `maxSpots` stops, and each is a catalog venue
      that no week rule excludes. */
  lemma ItineraryFromCatalog(catalog: seq<Venue>, skips: seq<SkipRow>, req: Request, dist: Distance)
    ensures var f := Final(catalog, skips, req, dist);
            && (f.stops == [] || |f.stops| <= req.maxSpots)
            && forall k :: 0 <= k < |f.stops| ==>
                 f.stops[k].venue in catalog && Unskipped(f.stops[k].venue.id, skips, req.date, req.weekEnd)
  {
    var filtered := Filter(catalog, skips, req.date, req.weekEnd);
    RunKeepsFromCatalog(Initial(filtered, req), filtered, req, dist);
  }

  /** When catalog ids are distinct, no venue id appears twice in an itinerary. */
  lemma ItineraryIdsDistinct(catalog: seq<Venue>, skips: seq<SkipRow>, req: Request, dist: Distance)
    requires DistinctIds(catalog)
    ensures StopIdsDistinct(Final(catalog, skips, req, dist).stops)
  {
    var filtered := Filter(catalog, skips, req.date, req.weekEnd);
    FilterKeepsIdsDistinct(catalog, skips, req.date, req.weekEnd);
    RunKeepsIdsApart(Initial(filtered, req), req, dist);
  }

  /** Every leg of an itinerary fits in time, and unless the buffer is -5
      minutes or less the show times strictly increase. */
  lemma ItineraryTimed(catalog: seq<Venue>, skips: seq<SkipRow>, req: Request, dist: Distance)
    ensures var f := Final(catalog, skips, req, dist);
            && WellTimed(f.stops, req, dist)
            && (req.buffer > -5 ==> forall a, b :: 0 <= a < b < |f.stops| ==> f.stops[a].venue.show < f.stops[b].venue.show)
  {
    var filtered := Filter(catalog, skips, req.date, req.weekEnd);
    var f := Final(catalog, skips, req, dist);
    RunKeepsTimed(Initial(filtered, req), req, dist);
    if req.buffer > -5 {
      ShowGaps(f.stops, req, dist);
      ShowTimesIncrease(f.stops, req.buffer);
    }
  }

  /** One pass of the method's loop agrees with `Run`: taking the candidate
      the scoring pass kept leaves the rest of the run unchanged. */
  lemma RunAfterChoice(s: State, c: Candidate, next: State, req: Request, dist: Distance)
    requires Guard(s, req) && Best(s.remaining, Here(s.clock, s.pos), req, dist) == Some(c)
    requires c.index < |s.remaining|
    requires var v := s.remaining[c.index];
             next == State(v.show + 5, v.pos, s.stops + [Stop(v, c.leg)], RemoveFirst(s.remaining, v))
    ensures Run(s, req, dist) == Run(next, req, dist)
  {
  }

  /** Without a candidate the run ends `Stuck` where it is. */
  lemma RunWithoutChoice(s: State, req: Request, dist: Distance)
    requires Guard(s, req) && Best(s.remaining, Here(s.clock, s.pos), req, dist).None?
    ensures Run(s, req, dist) == (s, Stuck)
  {
  }

  /** `generate_itinerary` (server.py:49-114) from the fetched catalog and
      skip rows on: filter, then build. Where the source would repeat an
      iteration that finds nothing for ever, this method stops and reports
      `Stuck`. */
  method GenerateItinerary(catalog: seq<Venue>, skips: seq<SkipRow>, req: Request, dist: Distance)
    returns (itinerary: seq<Stop>, outcome: Outcome)
    ensures var r := Run(Initial(Filter(catalog, skips, req.date, req.weekEnd), req), req, dist);
            itinerary == r.0.stops && outcome == r.1
    ensures itinerary == [] || |itinerary| <= req.maxSpots
    ensures forall k :: 0 <= k < |itinerary| ==>
              itinerary[k].venue in catalog && Unskipped(itinerary[k].venue.id, skips, req.date, req.weekEnd)
    ensures DistinctIds(catalog) ==> StopIdsDistinct(itinerary)
    ensures WellTimed(itinerary, req, dist)
    ensures req.buffer > -5 ==> forall a, b :: 0 <= a < b < |itinerary| ==> itinerary[a].venue.show < itinerary[b].venue.show
  {
    var venues := Filter(catalog, skips, req.date, req.weekEnd);
    ghost var s0 := Initial(venues, req);
    itinerary := [];
    var clock: int := req.start;
    var pos := UnionSquare;
    outcome := Finished;
    while venues != [] && |itinerary| < req.maxSpots
      invariant Run(State(clock, pos, itinerary, venues), req, dist) == Run(s0, req, dist)
      invariant outcome == Finished
      decreases |venues|
    {
      var best := SelectBest(venues, Here(clock, pos), req, dist);
      if best.None? {
        // The source has no way out here: the next pass would be the same.
        RunWithoutChoice(State(clock, pos, itinerary, venues), req, dist);
        outcome := Stuck;
        break;
      }
      ghost var before := State(clock, pos, itinerary, venues);
      var v := venues[best.value.index];
      itinerary := itinerary + [Stop(v, best.value.leg)];
      clock := v.show + 5;
      pos := v.pos;
      venues := RemoveFirst(venues, v);
      RunAfterChoice(before, best.value, State(clock, pos, itinerary, venues), req, dist);
    }
    assert itinerary == Final(catalog, skips, req, dist).stops;
    ItineraryFromCatalog(catalog, skips, req, dist);
    if DistinctIds(catalog) {
      ItineraryIdsDistinct(catalog, skips, req, dist);
    }
    ItineraryTimed(catalog, skips, req, dist);
  }
}
