/** The linear nearest-neighbour scan shared by both planners (`nearest`). */
module TreeSearch {
  import opened Geometry

  /** Distance from node `i` to node `n` of the coordinate lists. */
  function DistTo(xs: seq<real>, ys: seq<real>, dist: Metric, i: nat, n: nat): real
    requires i < |xs| && n < |xs| && |xs| == |ys|
  {
    dist(Pos(xs, ys, i), Pos(xs, ys, n))
  }

  /**
   * `nn` is the lowest-index node of `xs`, `ys` closest to the point `p`:
   * the node `nearest` picks for a new node placed at `p`.
   */
  predicate NearestTo(xs: seq<real>, ys: seq<real>, dist: Metric, p: Point, nn: nat)
    requires |xs| == |ys|
  {
    && nn < |xs|
    && (forall i :: 0 <= i < |xs| ==> dist(Pos(xs, ys, nn), p) <= dist(Pos(xs, ys, i), p))
    && (forall i :: 0 <= i < nn ==> dist(Pos(xs, ys, nn), p) < dist(Pos(xs, ys, i), p))
  }

  /** At most one node is the nearest. */
  lemma NearestToUnique(xs: seq<real>, ys: seq<real>, dist: Metric, p: Point, a: nat, b: nat)
    requires |xs| == |ys| && NearestTo(xs, ys, dist, p, a) && NearestTo(xs, ys, dist, p, b)
    ensures a == b
  {
    assert dist(Pos(xs, ys, a), p) == dist(Pos(xs, ys, b), p);
  }

  /** A non-empty list of nodes has a nearest node to every point. */
  lemma {:induction false} NearestToExists(xs: seq<real>, ys: seq<real>, dist: Metric, p: Point)
    requires 0 < |xs| == |ys|
    ensures exists nn :: NearestTo(xs, ys, dist, p, nn)
  {
    var m := |xs| - 1;
    if m == 0 {
      assert NearestTo(xs, ys, dist, p, 0);
    } else {
      var xs', ys' := xs[..m], ys[..m];
      NearestToExists(xs', ys', dist, p);
      var nn :| NearestTo(xs', ys', dist, p, nn);
      assert forall i :: 0 <= i < m ==> Pos(xs', ys', i) == Pos(xs, ys, i);
      if dist(Pos(xs, ys, m), p) < dist(Pos(xs, ys, nn), p) {
        assert NearestTo(xs, ys, dist, p, m);
      } else {
        assert NearestTo(xs, ys, dist, p, nn);
      }
    }
  }

  /**
   * Scans nodes `0..n-1` keeping a running minimum that starts at node 0 and
   * is replaced only on a strictly smaller distance: the result is the
   * lowest-index node closest to node `n`.
   */
  method Nearest(xs: seq<real>, ys: seq<real>, dist: Metric, n: nat) returns (nnear: nat)
    requires n < |xs| && |xs| == |ys|
    ensures n == 0 ==> nnear == 0
    ensures 0 < n ==> nnear < n
    ensures forall i :: 0 <= i < n ==> DistTo(xs, ys, dist, nnear, n) <= DistTo(xs, ys, dist, i, n)
    ensures forall i :: 0 <= i < nnear ==> DistTo(xs, ys, dist, nnear, n) < DistTo(xs, ys, dist, i, n)
    ensures 0 < n ==> NearestTo(xs[..n], ys[..n], dist, Pos(xs, ys, n), nnear)
  {
    var dmin := DistTo(xs, ys, dist, 0, n);
    nnear := 0;
    for i := 0 to n
      invariant nnear == 0 || nnear < i
      invariant dmin == DistTo(xs, ys, dist, nnear, n)
      invariant forall j :: 0 <= j < i ==> dmin <= DistTo(xs, ys, dist, j, n)
      invariant forall j :: 0 <= j < nnear ==> dmin < DistTo(xs, ys, dist, j, n)
    {
      if DistTo(xs, ys, dist, i, n) < dmin {
        dmin := DistTo(xs, ys, dist, i, n);
        nnear := i;
      }
    }
    forall i | 0 <= i < n
      ensures DistTo(xs, ys, dist, i, n) == dist(Pos(xs[..n], ys[..n], i), Pos(xs, ys, n))
    {
      assert Pos(xs[..n], ys[..n], i) == Pos(xs, ys, i);
    }
  }
}
