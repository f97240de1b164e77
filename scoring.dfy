/** The feasibility and scoring pass of one builder iteration
    (server.py:75-98): every remaining venue is checked against the current
    clock and position, and the cheapest feasible one is kept, the first of
    equals winning. */
module Scoring {
  import opened Data

  /** A travel leg: the mode, the distance it covers and its whole minutes. */
  datatype Leg = Leg(mode: Mode, miles: Miles, minutes: int)

  /** A feasible venue's leg and cost. */
  datatype Scored = Scored(leg: Leg, cost: int)

  /** The best venue so far: its index in the working list, its leg and cost. */
  datatype Candidate = Candidate(index: nat, leg: Leg, cost: int)

  /** Where the traveller is: the clock in minutes and the position. */
  datatype Here = Here(clock: int, pos: Position)

  /** The travel choice of server.py:85-92. Walking (3 mph) is taken when it
      is accepted and the venue is at most a mile away; otherwise the subway
      (30 mph plus a five-minute wait) when it is accepted and the venue is at
      most three miles away; otherwise the venue cannot be reached. The
      minutes are the source's `int(...)` of a non-negative quotient. */
  function TravelFor(d: Miles, modes: set<Mode>): (r: Option<Leg>)
    ensures r.Some? && r.value.mode == Walk <==> Walk in modes && d <= 1.0
    ensures r.Some? && r.value.mode == Subway <==> !(Walk in modes && d <= 1.0) && Subway in modes && d <= 3.0
    ensures r.Some? ==> r.value.miles == d
    ensures r.Some? && r.value.mode == Walk ==>
              r.value.minutes as real <= d / 0.05 < r.value.minutes as real + 1.0 && 0 <= r.value.minutes <= 20
    ensures r.Some? && r.value.mode == Subway ==>
              (r.value.minutes - 5) as real <= d / 0.5 < (r.value.minutes - 5) as real + 1.0 && 5 <= r.value.minutes <= 11
  {
    if Walk in modes && d <= 1.0 then Some(Leg(Walk, d, (d / 0.05).Floor))
    else if Subway in modes && d <= 3.0 then Some(Leg(Subway, d, (d / 0.5).Floor + 5))
    else None
  }

  /** The cost of server.py:94: the travel minutes plus the idle minutes from
      arrival to the show. `timedelta.seconds` keeps a gap modulo one day. */
  function Cost(show: int, clock: int, travel: int): (c: int)
    ensures 0 <= c - travel < 1440
    ensures (c - travel - (show - clock - travel)) % 1440 == 0
  {
    travel + (show - (clock + travel)) % 1440
  }

  /** One pass of the inner loop's body (server.py:80-94) for venue `v`:
      `None` where the source reaches `continue` or fails the test at line 93. */
  function Assess(v: Venue, here: Here, req: Request, dist: Distance): (r: Option<Scored>)
    ensures r.Some? ==> v.show >= here.clock + req.buffer
    ensures r.Some? ==> TravelFor(dist(here.pos, v.pos), req.modes) == Some(r.value.leg)
    ensures r.Some? ==> v.show >= here.clock + r.value.leg.minutes + req.buffer
    ensures r.Some? ==> r.value.leg.minutes >= 0
  {
    if v.show < here.clock + req.buffer then None
    else
      match TravelFor(dist(here.pos, v.pos), req.modes)
      case None => None
      case Some(leg) =>
        if v.show >= here.clock + leg.minutes + req.buffer
        then Some(Scored(leg, Cost(v.show, here.clock, leg.minutes)))
        else None
  }

  /** A venue is feasible exactly when it passes the three tests of
      server.py:82, 85-92 and 93, and then its cost is its travel minutes plus
      an idle part in 0..1439 that agrees, modulo one day, with the minutes
      from arrival to the show. */
  lemma AssessIsFeasibility(v: Venue, here: Here, req: Request, dist: Distance)
    ensures var r := Assess(v, here, req, dist);
            var t := TravelFor(dist(here.pos, v.pos), req.modes);
            && (r.Some? <==> v.show >= here.clock + req.buffer && t.Some? && v.show >= here.clock + t.value.minutes + req.buffer)
            && (r.Some? ==> var idle := r.value.cost - r.value.leg.minutes;
                            0 <= idle < 1440 && (idle - (v.show - here.clock - r.value.leg.minutes)) % 1440 == 0)
  {
  }

  /** With a non-negative buffer, a feasible venue's cost is simply the time
      from now until its show: the travel and the idle time add up. */
  lemma CostIsTimeUntilShow(v: Venue, here: Here, req: Request, dist: Distance)
    requires req.buffer >= 0 && here.clock >= 0
    requires Assess(v, here, req, dist).Some?
    ensures Assess(v, here, req, dist).value.cost == v.show - here.clock
  {
    var t := Assess(v, here, req, dist).value.leg.minutes;
    var gap := v.show - (here.clock + t);
    assert 0 <= gap < 1440;
    assert gap % 1440 == gap;
  }

  /** The inner loop (server.py:79-98) after it has seen the first `k`
      venues: the cheapest feasible one among them, the earliest on a tie
      because a later one must be strictly cheaper to replace it. */
  function BestUpTo(vs: seq<Venue>, k: nat, here: Here, req: Request, dist: Distance): (r: Option<Candidate>)
    requires k <= |vs|
    ensures r.Some? ==> r.value.index < k
    ensures r.Some? ==> Assess(vs[r.value.index], here, req, dist) == Some(Scored(r.value.leg, r.value.cost))
    decreases k
  {
    if k == 0 then None
    else
      var prev := BestUpTo(vs, k - 1, here, req, dist);
      match Assess(vs[k - 1], here, req, dist)
      case None => prev
      case Some(sc) =>
        if prev.None? || sc.cost < prev.value.cost then Some(Candidate(k - 1, sc.leg, sc.cost)) else prev
  }

  /** The candidate the whole pass keeps. */
  function Best(vs: seq<Venue>, here: Here, req: Request, dist: Distance): Option<Candidate> {
    BestUpTo(vs, |vs|, here, req, dist)
  }

  /** Venue `i` of the first `k` is feasible, no feasible venue among them is
      cheaper, and every feasible venue before it is dearer. */
  predicate IsFirstMinimum(vs: seq<Venue>, k: nat, i: nat, here: Here, req: Request, dist: Distance)
    requires k <= |vs|
  {
    && i < k
    && Assess(vs[i], here, req, dist).Some?
    && (forall j :: 0 <= j < k && Assess(vs[j], here, req, dist).Some? ==>
          Assess(vs[i], here, req, dist).value.cost <= Assess(vs[j], here, req, dist).value.cost)
    && (forall j :: 0 <= j < i && Assess(vs[j], here, req, dist).Some? ==>
          Assess(vs[i], here, req, dist).value.cost < Assess(vs[j], here, req, dist).value.cost)
  }

  /** The pass finds nothing exactly when no venue is feasible; otherwise it
      keeps exactly the first venue of minimum cost. */
  lemma {:induction false} BestUpToIsFirstMinimum(vs: seq<Venue>, k: nat, here: Here, req: Request, dist: Distance)
    requires k <= |vs|
    ensures BestUpTo(vs, k, here, req, dist).None? <==> forall j :: 0 <= j < k ==> Assess(vs[j], here, req, dist).None?
    ensures BestUpTo(vs, k, here, req, dist).Some? ==>
              IsFirstMinimum(vs, k, BestUpTo(vs, k, here, req, dist).value.index, here, req, dist)
    ensures forall i :: IsFirstMinimum(vs, k, i, here, req, dist) ==>
              BestUpTo(vs, k, here, req, dist).Some? && BestUpTo(vs, k, here, req, dist).value.index == i
    decreases k
  {
    if k > 0 {
      BestUpToIsFirstMinimum(vs, k - 1, here, req, dist);
      var prev := BestUpTo(vs, k - 1, here, req, dist);
      var b := BestUpTo(vs, k, here, req, dist);
      var last := Assess(vs[k - 1], here, req, dist);
      if b.Some? {
        var i := b.value.index;
        if last.None? {
          FirstMinimumExtends(vs, k, i, here, req, dist);
        } else if prev.None? {
          FirstFeasibleIsFirstMinimum(vs, k, here, req, dist);
        } else if last.value.cost < prev.value.cost {
          CheaperLastIsFirstMinimum(vs, k, prev.value.index, here, req, dist);
        } else {
          FirstMinimumExtends(vs, k, i, here, req, dist);
        }
        forall i': nat | IsFirstMinimum(vs, k, i', here, req, dist) ensures i' == i {
          FirstMinimumIsUnique(vs, k, i, i', here, req, dist);
        }
      }
    }
  }

  /** The last of the first `k` venues, feasible after none was, is the first
      minimum. */
  lemma FirstFeasibleIsFirstMinimum(vs: seq<Venue>, k: nat, here: Here, req: Request, dist: Distance)
    requires 0 < k <= |vs| && Assess(vs[k - 1], here, req, dist).Some?
    requires forall j :: 0 <= j < k - 1 ==> Assess(vs[j], here, req, dist).None?
    ensures IsFirstMinimum(vs, k, k - 1, here, req, dist)
  {
  }

  /** The last of the first `k` venues, strictly cheaper than the first
      minimum before it, is the new first minimum. */
  lemma CheaperLastIsFirstMinimum(vs: seq<Venue>, k: nat, p: nat, here: Here, req: Request, dist: Distance)
    requires 0 < k <= |vs| && IsFirstMinimum(vs, k - 1, p, here, req, dist)
    requires Assess(vs[k - 1], here, req, dist).Some?
    requires Assess(vs[k - 1], here, req, dist).value.cost < Assess(vs[p], here, req, dist).value.cost
    ensures IsFirstMinimum(vs, k, k - 1, here, req, dist)
  {
  }

  /** A first minimum stays one when the next venue is infeasible or no cheaper. */
  lemma FirstMinimumExtends(vs: seq<Venue>, k: nat, i: nat, here: Here, req: Request, dist: Distance)
    requires 0 < k <= |vs| && IsFirstMinimum(vs, k - 1, i, here, req, dist)
    requires Assess(vs[k - 1], here, req, dist).Some? ==>
               Assess(vs[i], here, req, dist).value.cost <= Assess(vs[k - 1], here, req, dist).value.cost
    ensures IsFirstMinimum(vs, k, i, here, req, dist)
  {
  }

  /** At most one venue is the first of minimum cost. */
  lemma FirstMinimumIsUnique(vs: seq<Venue>, k: nat, i: nat, i': nat, here: Here, req: Request, dist: Distance)
    requires k <= |vs|
    requires IsFirstMinimum(vs, k, i, here, req, dist) && IsFirstMinimum(vs, k, i', here, req, dist)
    ensures i == i'
  {
  }

  /** The kept venue never has an equal copy earlier in the list, so removing
      the first element equal to it removes that very venue. */
  lemma FirstMinimumHasNoEarlierCopy(vs: seq<Venue>, i: nat, here: Here, req: Request, dist: Distance)
    requires IsFirstMinimum(vs, |vs|, i, here, req, dist)
    ensures forall j :: 0 <= j < i ==> vs[j] != vs[i]
  {
  }

  /** With a non-negative buffer the pass keeps the feasible venue with the
      earliest show; of several at that time, the first in list order. */
  lemma BestIsEarliestShow(vs: seq<Venue>, here: Here, req: Request, dist: Distance)
    requires req.buffer >= 0 && here.clock >= 0
    requires Best(vs, here, req, dist).Some?
    ensures var i := Best(vs, here, req, dist).value.index;
            && (forall j :: 0 <= j < |vs| && Assess(vs[j], here, req, dist).Some? ==> vs[i].show <= vs[j].show)
            && (forall j :: 0 <= j < i && Assess(vs[j], here, req, dist).Some? ==> vs[i].show < vs[j].show)
  {
    var i := Best(vs, here, req, dist).value.index;
    BestUpToIsFirstMinimum(vs, |vs|, here, req, dist);
    assert IsFirstMinimum(vs, |vs|, i, here, req, dist);
    CostIsTimeUntilShow(vs[i], here, req, dist);
    forall j | 0 <= j < |vs| && Assess(vs[j], here, req, dist).Some?
      ensures Assess(vs[j], here, req, dist).value.cost == vs[j].show - here.clock
    {
      CostIsTimeUntilShow(vs[j], here, req, dist);
    }
  }

  /** The inner `for` loop of server.py:79-98, updating the best candidate
      venue by venue. */
  method SelectBest(venues: seq<Venue>, here: Here, req: Request, dist: Distance) returns (best: Option<Candidate>)
    ensures best == Best(venues, here, req, dist)
    ensures best.None? <==> forall j :: 0 <= j < |venues| ==> Assess(venues[j], here, req, dist).None?
    ensures best.Some? ==> IsFirstMinimum(venues, |venues|, best.value.index, here, req, dist)
  {
    best := None;
    for i := 0 to |venues|
      invariant best == BestUpTo(venues, i, here, req, dist)
    {
      var scored := Assess(venues[i], here, req, dist);
      if scored.Some? && (best.None? || scored.value.cost < best.value.cost) {
        best := Some(Candidate(i, scored.value.leg, scored.value.cost));
      }
    }
    BestUpToIsFirstMinimum(venues, |venues|, here, req, dist);
  }
}
