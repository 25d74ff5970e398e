/**
 * The part of `step` shared by both planners that does not depend on
 * trigonometry: the step bound and the test that snaps a steered point to
 * the goal.
 */
module Steering {
  import opened Geometry

  /** The default `dmax` of `step`. */
  const DMax: real := 35.0

  function Abs(r: real): (a: real)
    ensures 0.0 <= a && (a == r || a == -r)
  {
    if r < 0.0 then -r else r
  }

  /** The steered integer point lies within `dmax` of the goal on both axes. */
  predicate NearGoal(goal: Point, steered: (int, int))
  {
    Abs(steered.0 as real - goal.0) < DMax && Abs(steered.1 as real - goal.1) < DMax
  }

  /** Where `step` puts the replacement node: the goal itself, or the steered point. */
  function Target(goal: Point, steered: (int, int)): (p: Point)
    ensures NearGoal(goal, steered) ==> p == goal
    ensures !NearGoal(goal, steered) ==> p == (steered.0 as real, steered.1 as real)
  {
    if NearGoal(goal, steered) then goal else (steered.0 as real, steered.1 as real)
  }
}
