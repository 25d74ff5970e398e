/**
 * Obstacle placement (`makeobs`, identical in both planner files): up to
 * `obsNumber` squares, each retried at most `MaxIter` times until it does
 * not collide with the squares already placed. The random corners are the
 * parameter `draw`: `draw(i, j)` is the corner drawn on attempt `j` for
 * obstacle `i`.
 */
module ObstacleField {
  import opened Geometry

  const MaxIter: nat := 1000
  /** The index of the final attempt (`max_iter - 1`). */
  const LastAttempt: nat := MaxIter - 1

  /** `any(rectang.colliderect(e) for e in obs)`. */
  predicate CollidesAny(r: Rect, obs: seq<Rect>)
  {
    exists k :: 0 <= k < |obs| && Overlaps(r, obs[k])
  }

  /**
   * Obstacle `k` was accepted on attempt `j`: it is the square drawn then,
   * it collides with none of the earlier obstacles, and every earlier
   * attempt for it did collide.
   */
  ghost predicate PlacedAt(draw: (nat, nat) -> (int, int), side: real, obs: seq<Rect>, k: nat, j: nat)
    requires k < |obs|
  {
    && obs[k] == Square(draw(k, j), side)
    && !CollidesAny(obs[k], obs[..k])
    && forall jj :: 0 <= jj < j ==> CollidesAny(Square(draw(k, jj), side), obs[..k])
  }

  /** Every attempt for obstacle `i` collides with the obstacles in `obs`. */
  ghost predicate Exhausted(draw: (nat, nat) -> (int, int), side: real, obs: seq<Rect>, i: nat)
  {
    forall j :: 0 <= j < MaxIter ==> CollidesAny(Square(draw(i, j), side), obs)
  }

  /** Obstacle `k` was accepted on some attempt below `bound`. */
  ghost predicate AcceptedWithin(draw: (nat, nat) -> (int, int), side: real, obs: seq<Rect>, k: nat, bound: nat)
    requires k < |obs|
  {
    exists j :: 0 <= j < bound && PlacedAt(draw, side, obs, k, j)
  }

  lemma PlacedAtAppend(draw: (nat, nat) -> (int, int), side: real, obs: seq<Rect>, r: Rect, k: nat, j: nat)
    requires k < |obs| && PlacedAt(draw, side, obs, k, j)
    ensures PlacedAt(draw, side, obs + [r], k, j)
  {
    assert (obs + [r])[..k] == obs[..k];
  }

  method MakeObs(obsNumber: nat, obsdim: real, draw: (nat, nat) -> (int, int)) returns (obs: seq<Rect>)
    ensures |obs| <= obsNumber
    ensures forall k :: 0 <= k < |obs| ==> obs[k].width == obsdim && obs[k].height == obsdim
    ensures forall k, l :: 0 <= k < l < |obs| ==> !Overlaps(obs[l], obs[k])
    // each obstacle is the first non-colliding draw; all but the last were found before the final attempt
    ensures forall k :: 0 <= k < |obs| ==> AcceptedWithin(draw, obsdim, obs, k, MaxIter)
    ensures forall k :: 0 <= k < |obs| - 1 ==> AcceptedWithin(draw, obsdim, obs, k, LastAttempt)
    // placement stops early only when an obstacle used up its last attempt, placed or not
    ensures |obs| < obsNumber ==>
              Exhausted(draw, obsdim, obs, |obs|) || (0 < |obs| && PlacedAt(draw, obsdim, obs, |obs| - 1, LastAttempt))
  {
    obs := [];
    ghost var attempts: seq<nat> := [];
    var i := 0;
    while i < obsNumber
      invariant i == |obs| == |attempts| && i <= obsNumber
      invariant forall k :: 0 <= k < |obs| ==> attempts[k] < LastAttempt && PlacedAt(draw, obsdim, obs, k, attempts[k])
    {
      var j := 0;
      var placed := false;
      while true
        invariant 0 <= j < MaxIter && |obs| == i
        invariant forall jj :: 0 <= jj < j ==> CollidesAny(Square(draw(i, jj), obsdim), obs)
        decreases MaxIter - j
      {
        var rectang := Square(draw(i, j), obsdim);
        if CollidesAny(rectang, obs) {
          if j == LastAttempt {
            break;
          }
          j := j + 1;
        } else {
          forall k | 0 <= k < |obs| {
            PlacedAtAppend(draw, obsdim, obs, rectang, k, attempts[k]);
          }
          assert (obs + [rectang])[..i] == obs;
          obs := obs + [rectang];
          attempts := attempts + [j];
          placed := true;
          break;
        }
      }
      assert !placed ==> j == LastAttempt && |obs| == i && Exhausted(draw, obsdim, obs, i);
      assert placed ==> |obs| == i + 1 && PlacedAt(draw, obsdim, obs, i, j) && attempts[i] == j;
      if j == LastAttempt {
        // the source reports "unable to place all obstacles" and stops
        break;
      }
      i := i + 1;
    }
    forall k | 0 <= k < |obs|
      ensures obs[k].width == obsdim && obs[k].height == obsdim
      ensures AcceptedWithin(draw, obsdim, obs, k, MaxIter)
      ensures k < |obs| - 1 ==> AcceptedWithin(draw, obsdim, obs, k, LastAttempt)
    {
      assert PlacedAt(draw, obsdim, obs, k, attempts[k]);
    }
    forall k, l | 0 <= k < l < |obs| ensures !Overlaps(obs[l], obs[k]) {
      assert PlacedAt(draw, obsdim, obs, l, attempts[l]);
      assert obs[..l][k] == obs[k];
    }
  }
}
