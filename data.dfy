/** Reference data and request shapes shared by the skip filter, the scorer and
    the itinerary builder. Times are whole minutes since midnight of the
    requested date; distances are miles. */
module Data {

  datatype Option<T> = None | Some(value: T)

  /** A time of day written `HH:MM`, as minutes since midnight. */
  type Minute = m: int | 0 <= m < 1440

  /** A distance in miles; never negative. */
  type Miles = d: real | 0.0 <= d

  /** Decimal-degree coordinates. */
  datatype Position = Position(lat: real, lon: real)

  /** Every itinerary starts from Union Square (server.py:64). */
  const UnionSquare: Position := Position(40.7359, -73.9911)

  /** The great-circle distance between two points. The haversine formula that
      computes it in floating point is not part of this model; any function
      with non-negative results may stand in for it. */
  type Distance = (Position, Position) -> Miles

  /** A row of the `venues` table: id, name, address, coordinates, the show
      time and free-text notes. */
  datatype Venue = Venue(id: int, name: string, address: string, pos: Position, show: Minute, notes: string)

  datatype Mode = Walk | Subway

  /** The request form: its date and the end of its week as `YYYY-MM-DD`
      text, the start time, the stop limit, the buffer in minutes and the
      accepted travel modes. */
  datatype Request = Request(date: string, weekEnd: string, start: Minute, maxSpots: int, buffer: int, modes: set<Mode>)

  /** No two venues share an id (the `id INTEGER PRIMARY KEY` of the catalog). */
  predicate DistinctIds(vs: seq<Venue>) {
    forall a, b :: 0 <= a < b < |vs| ==> vs[a].id != vs[b].id
  }
}
