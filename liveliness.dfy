/**
 * Motion-based liveliness tracking (utils/liveliness.py).
 *
 * The tracker keeps, per recognised name, the centre of the last bounding box
 * seen and the time it was seen. A name counts as live when its box centre has
 * moved more than 20 pixels since a sample that is at most 5 seconds old.
 * Times are whole seconds supplied by the caller instead of a clock read.
 */
module Liveliness {

  /** A bounding box in pixel coordinates, as (x1, y1, x2, y2). */
  datatype Box = Box(x1: int, y1: int, x2: int, y2: int)

  datatype Point = Point(x: int, y: int)

  /** The stored record for one name: last centre and the time it was observed. */
  datatype Sample = Sample(center: Point, observedAt: int)

  type Table = map<string, Sample>

  /** A stored sample older than this many seconds is stale. */
  const StaleAfter: int := 5

  /** Movement strictly above this many pixels counts as live. */
  const MovementThreshold: int := 20

  /** The box centre, using floor division by two on each axis. */
  function Center(b: Box): (c: Point)
    ensures 2 * c.x <= b.x1 + b.x2 <= 2 * c.x + 1
    ensures 2 * c.y <= b.y1 + b.y2 <= 2 * c.y + 1
  {
    Point((b.x1 + b.x2) / 2, (b.y1 + b.y2) / 2)
  }

  function SquaredDistance(p: Point, q: Point): (d: int)
    ensures d >= 0
    ensures d == 0 <==> p == q
  {
    var dx, dy := p.x - q.x, p.y - q.y;
    assert dx * dx >= 0 && dy * dy >= 0;
    assert dx != 0 ==> dx * dx > 0;
    assert dy != 0 ==> dy * dy > 0;
    dx * dx + dy * dy
  }

  /** The source's `sqrt(dx^2 + dy^2) > 20`, kept in integers. */
  predicate MovedFarEnough(previous: Point, current: Point)
  {
    SquaredDistance(previous, current) > MovementThreshold * MovementThreshold
  }

  /**
   * The integer test agrees with the Euclidean one: for the non-negative real
   * square root `distance` of the squared displacement, the centre moved far
   * enough exactly when `distance` exceeds the threshold.
   */
  lemma {:induction false} MovedFarEnoughIsEuclidean(previous: Point, current: Point, distance: real)
    requires distance >= 0.0
    requires distance * distance == SquaredDistance(previous, current) as real
    ensures MovedFarEnough(previous, current) <==> distance > MovementThreshold as real
  {
    assert MovementThreshold as real == 20.0;
    if distance > 20.0 {
      assert distance * distance > 20.0 * distance by {
        assert (distance - 20.0) * distance > 0.0;
      }
    } else {
      if 0.0 < distance < 20.0 {
        assert (20.0 - distance) * distance > 0.0;
        assert distance * distance < 20.0 * distance;
      }
    }
  }

  /**
   * One call of the tracker on a table: the table afterwards and the verdict.
   * This is the value-level description of `Tracker.CheckLiveliness`.
   */
  function Step(table: Table, name: string, box: Box, now: int): (Table, bool)
  {
    var sample := Sample(Center(box), now);
    if name !in table then
      (table[name := sample], false)
    else if now - table[name].observedAt > StaleAfter then
      (table[name := sample], false)
    else
      (table[name := sample], MovedFarEnough(table[name].center, sample.center))
  }

  /** The record for `name` always becomes the new sample; no other record changes. */
  lemma StepRecords(table: Table, name: string, box: Box, now: int)
    ensures var t' := Step(table, name, box, now).0;
      && t'.Keys == table.Keys + {name}
      && t'[name] == Sample(Center(box), now)
      && forall other :: other in table && other != name ==> t'[other] == table[other]
  {
  }

  /**
   * Two calls with the same box, one right after the other, never report the
   * second as live: either the first sample went stale, or nothing moved.
   */
  lemma SameBoxTwiceNotLive(table: Table, name: string, box: Box, first: int, second: int)
    ensures !Step(Step(table, name, box, first).0, name, box, second).1
  {
    var c := Center(box);
    assert SquaredDistance(c, c) == 0;
  }

  /** Right after a reset every name is a cold start. */
  lemma AfterResetNotLive(name: string, box: Box, now: int)
    ensures !Step(map[], name, box, now).1
    ensures Step(map[], name, box, now).0 == map[name := Sample(Center(box), now)]
  {
  }

  /** A live verdict needs a fresh stored sample and a large enough move. */
  lemma {:induction false} LiveNeedsFreshMove(table: Table, name: string, box: Box, now: int)
    requires Step(table, name, box, now).1
    ensures name in table
    ensures now - table[name].observedAt <= StaleAfter
    ensures SquaredDistance(table[name].center, Center(box)) > 400
    ensures table[name].center != Center(box)
  {
    assert SquaredDistance(table[name].center, Center(box)) != 0;
  }

  /**
   * The module-level `previous_positions` dictionary and the two functions
   * that use it.
   */
  class Tracker {
    var previousPositions: Table

    constructor ()
      ensures previousPositions == map[]
    {
      previousPositions := map[];
    }

    /** `reset_liveliness`: forget every stored sample. */
    method Reset()
      modifies this
      ensures previousPositions == map[]
    {
      previousPositions := map[];
    }

    /** `check_liveliness(name, box)` at time `now`. */
    method CheckLiveliness(name: string, box: Box, now: int) returns (live: bool)
      modifies this
      ensures previousPositions == old(previousPositions)[name := Sample(Center(box), now)]
      ensures name !in old(previousPositions) ==> !live
      ensures name in old(previousPositions) && now - old(previousPositions)[name].observedAt > StaleAfter
              ==> !live
      ensures name in old(previousPositions) && now - old(previousPositions)[name].observedAt <= StaleAfter
              ==> (live <==> MovedFarEnough(old(previousPositions)[name].center, Center(box)))
      ensures (previousPositions, live) == Step(old(previousPositions), name, box, now)
    {
      var current := Center(box);
      if name !in previousPositions {
        previousPositions := previousPositions[name := Sample(current, now)];
        return false;
      }
      var previous := previousPositions[name];
      var elapsed := now - previous.observedAt;
      if elapsed > StaleAfter {
        previousPositions := previousPositions[name := Sample(current, now)];
        return false;
      }
      previousPositions := previousPositions[name := Sample(current, now)];
      live := SquaredDistance(current, previous.center) > MovementThreshold * MovementThreshold;
      assert SquaredDistance(current, previous.center) == SquaredDistance(previous.center, current);
    }
  }
}
