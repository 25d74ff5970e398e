/**
 * Point and segment collision tests against the obstacle list, shared by
 * both planners (`crossObstacles` is identical in the two source files).
 */
module Collision {
  import opened Geometry

  /** A segment is tested at `u = i / Resolution` for `i` in `0..Resolution`. */
  const Resolution: nat := 200

  /** The parameter of sample `i`. */
  function Param(i: int): real
  {
    i as real / Resolution as real
  }

  /** The coordinate of sample `i`: `a * u + b * (1 - u)`, so sample 0 is `b` and the last is `a`. */
  function Lerp(a: real, b: real, i: int): real
  {
    a * Param(i) + b * (1.0 - Param(i))
  }

  /** Sample `i` of the segment from `(x1, y1)` to `(x2, y2)` lies in `r`. */
  predicate SampleHits(r: Rect, x1: real, x2: real, y1: real, y2: real, i: int)
  {
    Contains(r, Lerp(x1, x2, i), Lerp(y1, y2, i))
  }

  /** Some sample of the segment lies in some obstacle. */
  ghost predicate SegmentHits(obs: seq<Rect>, x1: real, x2: real, y1: real, y2: real)
  {
    exists k, i :: 0 <= k < |obs| && 0 <= i <= Resolution && SampleHits(obs[k], x1, x2, y1, y2, i)
  }

  /** The point lies in some obstacle. */
  ghost predicate PointBlocked(obs: seq<Rect>, px: real, py: real)
  {
    exists k :: 0 <= k < |obs| && Contains(obs[k], px, py)
  }

  /**
   * `crossObstacles`: walks a copy of the obstacle list front to back and,
   * for each rectangle, the 201 samples of the segment, stopping at the first
   * sample inside a rectangle. The obstacle list is a value, so it is never
   * changed.
   */
  method CrossObstacles(obstacles: seq<Rect>, x1: real, x2: real, y1: real, y2: real)
    returns (hit: bool)
    ensures hit <==> SegmentHits(obstacles, x1, x2, y1, y2)
    ensures obstacles == [] ==> !hit
  {
    var obs := obstacles;
    while |obs| > 0
      invariant |obs| <= |obstacles|
      invariant obs == obstacles[|obstacles| - |obs|..]
      invariant forall k, i :: 0 <= k < |obstacles| - |obs| && 0 <= i <= Resolution ==>
                  !SampleHits(obstacles[k], x1, x2, y1, y2, i)
    {
      ghost var k := |obstacles| - |obs|;
      var rectang := obs[0];
      assert rectang == obstacles[k];
      obs := obs[1..];
      for i := 0 to Resolution + 1
        invariant forall j :: 0 <= j < i ==> !SampleHits(rectang, x1, x2, y1, y2, j)
      {
        var x := Lerp(x1, x2, i);
        var y := Lerp(y1, y2, i);
        if Contains(rectang, x, y) {
          assert SampleHits(obstacles[k], x1, x2, y1, y2, i);
          return true;
        }
      }
    }
    return false;
  }

  /** Sample `i` of a segment is sample `Resolution - i` of the reversed segment. */
  lemma LerpFlip(a: real, b: real, i: int)
    ensures Lerp(b, a, Resolution - i) == Lerp(a, b, i)
  {
    assert Param(Resolution - i) == 1.0 - Param(i);
  }

  /** The segment test does not depend on the direction of the segment. */
  lemma SegmentHitsSymmetric(obs: seq<Rect>, x1: real, x2: real, y1: real, y2: real)
    ensures SegmentHits(obs, x1, x2, y1, y2) <==> SegmentHits(obs, x2, x1, y2, y1)
  {
    if SegmentHits(obs, x1, x2, y1, y2) {
      var k, i :| 0 <= k < |obs| && 0 <= i <= Resolution && SampleHits(obs[k], x1, x2, y1, y2, i);
      LerpFlip(x1, x2, i);
      LerpFlip(y1, y2, i);
      assert SampleHits(obs[k], x2, x1, y2, y1, Resolution - i);
    }
    if SegmentHits(obs, x2, x1, y2, y1) {
      var k, i :| 0 <= k < |obs| && 0 <= i <= Resolution && SampleHits(obs[k], x2, x1, y2, y1, i);
      LerpFlip(x2, x1, i);
      LerpFlip(y2, y1, i);
      assert SampleHits(obs[k], x1, x2, y1, y2, Resolution - i);
    }
  }

  /**
   * Both endpoints are samples (`u = 1` gives the first point, `u = 0` the
   * second), so a segment with an endpoint inside an obstacle always hits.
   */
  lemma EndpointBlockedHits(obs: seq<Rect>, x1: real, x2: real, y1: real, y2: real)
    requires PointBlocked(obs, x1, y1) || PointBlocked(obs, x2, y2)
    ensures SegmentHits(obs, x1, x2, y1, y2)
  {
    if PointBlocked(obs, x1, y1) {
      var k :| 0 <= k < |obs| && Contains(obs[k], x1, y1);
      assert SampleHits(obs[k], x1, x2, y1, y2, Resolution);
    } else {
      var k :| 0 <= k < |obs| && Contains(obs[k], x2, y2);
      assert SampleHits(obs[k], x1, x2, y1, y2, 0);
    }
  }
}
