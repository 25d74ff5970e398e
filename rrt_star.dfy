/**
 * `RRTGraph` of RRT/src/RRT_star.py: the RRT* tree kept as parallel lists
 * that the methods grow, shrink and rewire in place.
 *
 * Random draws become parameters: `sample` for `sample_envir`, `draw` for
 * the obstacle corners, and `steered` for the integer point that `step`
 * computes with `atan2`, `cos`, `sin` and `int`.
 */
module RRTStar {
  import opened Wrappers
  import opened Geometry
  import opened Costs
  import opened Collision
  import opened StarTree
  import opened Steering
  import TreeSearch
  import ObstacleField

  /** Neighbours closer than this are candidates for rewiring. */
  const RewireRadius: real := 35.0

  class RRTStarGraph {
    const start: Point
    const goal: Point
    const obsdim: real
    const obsNumber: nat
    /** The distance used for edge lengths and nearest-neighbour search. */
    const dist: Metric

    var x: seq<real>
    var y: seq<real>
    var parent: seq<nat>
    var cost: seq<Cost>
    var obstacles: seq<Rect>
    var goalFlag: bool
    var goalstate: Option<nat>
    var path: seq<nat>
    /** Tie-break rank among nodes of equal cost; exists only for the proof of acyclicity. */
    ghost var tie: seq<nat>

    ghost function Snapshot(): Tree
      reads this`x, this`y, this`parent, this`cost, this`tie
    {
      Tree(x, y, parent, cost, tie)
    }

    /**
     * The goal flag is set exactly when a goal index is recorded; that index
     * is a node with a parent or, when the goal node was rejected, the next
     * index to be attached. The path names existing nodes.
     */
    ghost predicate Bookkeeping()
      reads this
    {
      && (goalFlag <==> goalstate.Some?)
      && (goalstate.Some? ==> goalstate.value <= |parent|)
      && (forall k :: 0 <= k < |path| ==> path[k] < |parent|)
    }

    /** Between growth steps: every node has a parent and the tree invariant holds. */
    ghost predicate Valid()
      reads this
    {
      Complete(Snapshot(), dist, obstacles) && Bookkeeping()
    }

    /** Inside a growth step: the newest node has no parent yet. */
    ghost predicate Tentative()
      reads this
    {
      Pending(Snapshot(), dist, obstacles) && Bookkeeping()
    }

    /** In a valid tree, following parent links from any node reaches the start node within `|parent|` steps. */
    lemma ValidAcyclic()
      requires Valid()
      ensures forall i :: 0 <= i < |parent| ==> ReachesRoot(parent, i, |parent|)
    {
      ShapedAcyclic(Snapshot(), dist, obstacles);
    }

    /**
     * In a valid tree no node other than the start lies in an obstacle, and
     * a node's cost is never below its parent's.
     */
    lemma ValidNodes()
      requires Valid()
      ensures forall i :: 0 < i < |x| ==> !PointBlocked(obstacles, x[i], y[i])
      ensures forall i :: 0 < i < |parent| ==> LessEq(cost[parent[i]], cost[i])
    {
      forall i | 0 < i < |parent|
        ensures !PointBlocked(obstacles, x[i], y[i]) && LessEq(cost[parent[i]], cost[i])
      {
        ShapedEdges(Snapshot(), dist, obstacles, i);
      }
    }

    /** `__init__`: the tree holds only the start node, at cost 0, its own parent. */
    constructor(start: Point, goal: Point, obsdim: real, obsnum: nat, dist: Metric)
      ensures this.start == start && this.goal == goal && this.dist == dist
      ensures this.obsdim == obsdim && this.obsNumber == obsnum
      ensures x == [start.0] && y == [start.1] && parent == [0] && cost == [Finite(0.0)]
      ensures obstacles == [] && !goalFlag && goalstate == None && path == []
      ensures Valid()
    {
      this.start := start;
      this.goal := goal;
      this.obsdim := obsdim;
      this.obsNumber := obsnum;
      this.dist := dist;
      x := [start.0];
      y := [start.1];
      parent := [0];
      cost := [Finite(0.0)];
      tie := [0];
      obstacles := [];
      goalFlag := false;
      goalstate := None;
      path := [];
    }

    /** `makeobs`: places up to `obsNumber` non-overlapping squares and stores them. */
    method MakeObs(draw: (nat, nat) -> (int, int)) returns (obs: seq<Rect>)
      modifies this`obstacles
      ensures obstacles == obs && |obs| <= obsNumber
      ensures forall k :: 0 <= k < |obs| ==> obs[k].width == obsdim && obs[k].height == obsdim
      ensures forall k, l :: 0 <= k < l < |obs| ==> !Overlaps(obs[l], obs[k])
      ensures forall k :: 0 <= k < |obs| ==> ObstacleField.AcceptedWithin(draw, obsdim, obs, k, ObstacleField.MaxIter)
      ensures forall k :: 0 <= k < |obs| - 1 ==> ObstacleField.AcceptedWithin(draw, obsdim, obs, k, ObstacleField.LastAttempt)
      ensures |obs| < obsNumber ==>
                || ObstacleField.Exhausted(draw, obsdim, obs, |obs|)
                || (0 < |obs| && ObstacleField.PlacedAt(draw, obsdim, obs, |obs| - 1, ObstacleField.LastAttempt))
      ensures old(Valid()) && |x| == 1 ==> Valid()
    {
      obs := ObstacleField.MakeObs(obsNumber, obsdim, draw);
      obstacles := obs;
    }

    /** `add_node`: appends the point with an infinite cost; the index argument is ignored. */
    method AddNode(n: nat, px: real, py: real)
      modifies this`x, this`y, this`cost
      ensures x == old(x) + [px] && y == old(y) + [py] && cost == old(cost) + [Infinite]
      ensures old(Valid()) ==> Tentative()
    {
      ghost var t := Snapshot();
      ghost var wasValid := Valid();
      x := x + [px];
      y := y + [py];
      cost := cost + [Infinite];
      if wasValid {
        Propose(t, dist, obstacles, px, py);
        assert Snapshot() == t.(x := t.x + [px], y := t.y + [py], cost := t.cost + [Infinite]);
      }
    }

    /** `remove_node`: drops the coordinates of node `n`; `parent` and `cost` are untouched. */
    method RemoveNode(n: nat)
      requires n < |x| && n < |y|
      modifies this`x, this`y
      ensures x == old(x[..n] + x[n + 1..]) && y == old(y[..n] + y[n + 1..])
      ensures old(Tentative()) && n == old(|x|) - 1 ==> Valid()
    {
      ghost var t := Snapshot();
      ghost var wasTentative := Tentative();
      x := x[..n] + x[n + 1..];
      y := y[..n] + y[n + 1..];
      if wasTentative && n == |t.x| - 1 {
        Discard(t, dist, obstacles);
        assert Snapshot() == t.(x := t.x[..|t.parent|], y := t.y[..|t.parent|]);
      }
    }

    /** `distance`: infinite when an index is out of range, the metric otherwise. */
    function Distance(n1: nat, n2: nat): (d: Cost)
      reads this
      requires |x| == |y|
      ensures d.Infinite? <==> |x| <= n1 || |x| <= n2
      ensures d.Finite? ==> 0.0 <= d.value
      ensures n1 == n2 && n1 < |x| ==> d == Finite(0.0)
    {
      if n1 >= |x| || n2 >= |x| then Infinite else Finite(dist(Pos(x, y, n1), Pos(x, y, n2)))
    }

    lemma DistanceSymmetric(n1: nat, n2: nat)
      requires |x| == |y|
      ensures Distance(n1, n2) == Distance(n2, n1)
    {
    }

    /**
     * `add_edge`: appends `p` to the parent list and sets the child's cost to
     * the parent's cost plus the edge length.
     */
    method AddEdge(p: nat, child: nat)
      requires |x| == |y| && p < |cost| && child < |cost|
      modifies this`parent, this`cost, this`tie
      ensures parent == old(parent) + [p]
      ensures cost == old(cost[child := Plus(cost[p], Distance(p, child))])
      ensures (old(Tentative()) && child == old(|parent|) && p < child
               && !SegmentHits(obstacles, x[p], x[child], y[p], y[child])) ==> Valid()
    {
      ghost var t := Snapshot();
      ghost var wasTentative := Tentative();
      var c := Plus(cost[p], Distance(p, child));
      parent := parent + [p];
      cost := cost[child := c];
      tie := tie + [if p < |tie| then tie[p] + 1 else 0];
      if wasTentative && child == |t.parent| && p < child && !SegmentHits(obstacles, x[p], x[child], y[p], y[child]) {
        Attach(t, dist, obstacles, p);
        assert Snapshot() == t.(parent := t.parent + [p],
                                cost := t.cost[child := Plus(t.cost[p], Finite(EdgeLength(t, dist, p, child)))],
                                tie := t.tie + [t.tie[p] + 1]);
      }
    }

    /** `rewire` re-parents node `i` to `nw` under these conditions (read in the state before the call). */
    ghost predicate Rewirable(nw: nat, i: nat)
      reads this
    {
      && |x| == |y| && nw < |x| && i < |x| && i != nw && i < |cost| && nw < |cost|
      && dist(Pos(x, y, i), Pos(x, y, nw)) < RewireRadius
      && Less(Plus(cost[nw], Finite(dist(Pos(x, y, i), Pos(x, y, nw)))), cost[i])
      && !SegmentHits(obstacles, x[nw], x[i], y[nw], y[i])
    }

    /**
     * `rewire`: every other node within the radius that would be strictly
     * cheaper through `nw`, along a free segment, is re-parented to `nw`.
     * The costs of its descendants are not updated.
     */
    method Rewire(nw: nat)
      requires |x| == |y| && |x| <= |parent|
      modifies this`parent, this`cost, this`tie
      ensures |parent| == old(|parent|) && |cost| == old(|cost|)
      ensures forall i :: 0 <= i < |parent| ==>
                parent[i] == if old(Rewirable(nw, i)) then nw else old(parent[i])
      ensures forall i :: 0 <= i < |cost| ==>
                cost[i] == if old(Rewirable(nw, i)) then old(Plus(cost[nw], Distance(i, nw))) else old(cost[i])
      ensures forall i :: 0 <= i < |cost| ==> LessEq(cost[i], old(cost[i]))
      ensures old(Valid()) ==> Valid()
    {
      ghost var wasValid := Valid();
      if nw >= |x| {
        return;
      }
      for i := 0 to |x|
        invariant |parent| == old(|parent|) && |cost| == old(|cost|)
        invariant forall j :: 0 <= j < |parent| ==>
                    parent[j] == if j < i && old(Rewirable(nw, j)) then nw else old(parent[j])
        invariant forall j :: 0 <= j < |cost| ==>
                    cost[j] == if j < i && old(Rewirable(nw, j)) then old(Plus(cost[nw], Distance(j, nw))) else old(cost[j])
        invariant wasValid ==> Valid()
      {
        assert Rewirable(nw, i) == old(Rewirable(nw, i));
        RewireNode(nw, i);
      }
      forall i | 0 <= i < |cost| ensures LessEq(cost[i], old(cost[i])) {
        LessIsStrictOrder(cost[i], old(cost[i]), old(cost[i]));
      }
    }

    /** One iteration of the loop of `rewire`: the test and re-parenting of node `i`. */
    method RewireNode(nw: nat, i: nat)
      requires |x| == |y| && nw < |x| && i < |x| && |x| <= |parent|
      modifies this`parent, this`cost, this`tie
      ensures parent == if old(Rewirable(nw, i)) then old(parent[i := nw]) else old(parent)
      ensures cost == if old(Rewirable(nw, i)) then old(cost[i := Plus(cost[nw], Distance(i, nw))]) else old(cost)
      ensures old(Valid()) ==> Valid()
    {
      if i == nw || i >= |cost| || nw >= |cost| {
        return;
      }
      var d := Distance(i, nw);
      if Less(d, Finite(RewireRadius)) {
        var newCost := Plus(cost[nw], d);
        if Less(newCost, cost[i]) {
          var hit := CrossObstacles(obstacles, x[nw], x[i], y[nw], y[i]);
          if !hit {
            ghost var t := Snapshot();
            ghost var wasValid := Valid();
            if wasValid {
              RewireStep(t, dist, obstacles, nw, i);
            }
            parent := parent[i := nw];
            cost := cost[i := newCost];
            if wasValid {
              tie := tie[i := tie[nw] + 1];
              assert Snapshot() == t.(parent := t.parent[i := nw],
                                      cost := t.cost[i := Plus(t.cost[nw], Finite(EdgeLength(t, dist, i, nw)))],
                                      tie := t.tie[i := t.tie[nw] + 1]);
            }
          }
        }
      }
    }

    /** `nearest`: the lowest-index node among `0..n-1` closest to node `n`, or 0. */
    method Nearest(n: nat) returns (nnear: nat)
      requires |x| == |y|
      ensures |x| <= n || n == 0 ==> nnear == 0
      ensures n < |x| && 0 < n ==> nnear < n
      ensures n < |x| ==> forall i :: 0 <= i < n ==> LessEq(Distance(nnear, n), Distance(i, n))
      ensures n < |x| ==> forall i :: 0 <= i < nnear ==> Less(Distance(nnear, n), Distance(i, n))
      ensures 0 < n < |x| ==> TreeSearch.NearestTo(x[..n], y[..n], dist, Pos(x, y, n), nnear)
    {
      if n < |x| {
        nnear := TreeSearch.Nearest(x, y, dist, n);
        assert forall i :: 0 <= i < |x| ==> Distance(i, n) == Finite(TreeSearch.DistTo(x, y, dist, i, n));
      } else {
        nnear := 0;
      }
    }

    /**
     * `isFree`: tests the newest node against the obstacles front to back and
     * removes it on the first rectangle that contains it.
     */
    method IsFree() returns (free: bool)
      requires 0 < |x| == |y|
      modifies this`x, this`y
      ensures free <==> !PointBlocked(obstacles, old(x[|x| - 1]), old(y[|y| - 1]))
      ensures free ==> x == old(x) && y == old(y)
      ensures !free ==> x == old(x[..|x| - 1]) && y == old(y[..|y| - 1])
      ensures old(Tentative()) ==> if free then Tentative() else Valid()
    {
      var n := |x| - 1;
      var px, py := x[n], y[n];
      var obs := obstacles;
      while |obs| > 0
        invariant |obs| <= |obstacles| && obs == obstacles[|obstacles| - |obs|..]
        invariant forall k :: 0 <= k < |obstacles| - |obs| ==> !Contains(obstacles[k], px, py)
      {
        var rectang := obs[0];
        obs := obs[1..];
        if Contains(rectang, px, py) {
          assert Contains(obstacles[|obstacles| - |obs| - 1], px, py);
          RemoveNode(n);
          return false;
        }
      }
      return true;
    }

    /**
     * `connect`: attaches `n2` under `n1` when the segment between them is
     * free; otherwise removes node `n2`.
     */
    method Connect(n1: nat, n2: nat) returns (ok: bool)
      requires n1 < |x| && n2 < |x| && |x| == |y| && |x| <= |cost|
      modifies this`x, this`y, this`parent, this`cost, this`tie
      ensures ok <==> !SegmentHits(obstacles, old(x[n1]), old(x[n2]), old(y[n1]), old(y[n2]))
      ensures ok ==> x == old(x) && y == old(y) && parent == old(parent) + [n1]
                     && cost == old(cost[n2 := Plus(cost[n1], Distance(n1, n2))])
      ensures !ok ==> x == old(x[..n2] + x[n2 + 1..]) && y == old(y[..n2] + y[n2 + 1..])
                      && parent == old(parent) && cost == old(cost)
      ensures old(Tentative()) && n2 == old(|x|) - 1 && n1 < n2 ==> Valid()
    {
      var x1, y1 := x[n1], y[n1];
      var x2, y2 := x[n2], y[n2];
      var hit := CrossObstacles(obstacles, x1, x2, y1, y2);
      if hit {
        RemoveNode(n2);
        return false;
      } else {
        AddEdge(n1, n2);
        return true;
      }
    }

    /** `d > dmax` in `step`, with an out-of-range index giving infinity. */
    predicate Far(nnear: nat, nrand: nat)
      reads this
      requires |x| == |y|
    {
      Less(Finite(DMax), Distance(nnear, nrand))
    }

    /**
     * `step`: when node `nrand` is farther than `dmax` from `nnear`, it is
     * removed and a node is appended at the steered point, or exactly at the
     * goal when the steered point is near it, in which case the goal index is
     * recorded and the goal flag set.
     */
    method Step(nnear: nat, nrand: nat, steered: (int, int))
      requires nnear < |x| && nrand < |x| && |x| == |y|
      modifies this`x, this`y, this`cost, this`goalFlag, this`goalstate
      ensures !old(Far(nnear, nrand)) ==>
                x == old(x) && y == old(y) && cost == old(cost)
                && goalFlag == old(goalFlag) && goalstate == old(goalstate)
      ensures old(Far(nnear, nrand)) ==>
                var target := Target(goal, steered);
                && x == old(x[..nrand] + x[nrand + 1..]) + [target.0]
                && y == old(y[..nrand] + y[nrand + 1..]) + [target.1]
                && cost == old(cost) + [Infinite]
                && goalFlag == (old(goalFlag) || NearGoal(goal, steered))
                && goalstate == if NearGoal(goal, steered) then Some(nrand) else old(goalstate)
      ensures |x| == old(|x|) && |y| == old(|y|)
      ensures old(Far(nnear, nrand)) && NearGoal(goal, steered) ==> x[|x| - 1] == goal.0 && y[|y| - 1] == goal.1
      ensures old(Tentative()) && nrand == old(|x|) - 1 ==> Tentative()
    {
      var d := Distance(nnear, nrand);
      if Less(Finite(DMax), d) {
        RemoveNode(nrand);
        if NearGoal(goal, steered) {
          AddNode(nrand, goal.0, goal.1);
          goalstate := Some(nrand);
          goalFlag := true;
        } else {
          AddNode(nrand, steered.0 as real, steered.1 as real);
        }
      }
    }

    /**
     * `rewire` re-parents node `i` of the tree `xs`, `ys`, `cs` to a new node
     * at `q` with cost `cn`: `i` lies within the radius of `q`, the route
     * through the new node is strictly cheaper, and the segment is free.
     */
    ghost predicate RewiredTo(xs: seq<real>, ys: seq<real>, cs: seq<Cost>, q: Point, cn: Cost, i: nat)
      reads this`obstacles
      requires i < |xs| == |ys| == |cs|
    {
      && dist(Pos(xs, ys, i), q) < RewireRadius
      && Less(Plus(cn, Finite(dist(Pos(xs, ys, i), q))), cs[i])
      && !SegmentHits(obstacles, q.0, xs[i], q.1, ys[i])
    }

    /**
     * The state after a growth step that proposed a node at `p` beside node
     * `nn` of the tree `xs`, `ys`, `ps`, `cs` with goal record `flag`, `gs`.
     * When `p` is farther than `dmax` from `nn`, `step` moves the proposal to
     * the steered point, or onto the goal (recording its index). The node is
     * attached under `nn`, at the parent's cost plus the edge length, exactly
     * when that segment is free, and rewiring then re-parents to it exactly
     * the earlier nodes `RewiredTo` names, at their cheaper cost. Otherwise
     * the tree keeps its nodes, edges and costs.
     */
    ghost predicate Grown(xs: seq<real>, ys: seq<real>, ps: seq<nat>, cs: seq<Cost>,
                          flag: bool, gs: Option<nat>, nn: nat, p: Point, steered: (int, int))
      reads this`x, this`y, this`parent, this`cost, this`goalFlag, this`goalstate, this`obstacles
      requires nn < |xs| == |ys| == |ps| == |cs|
    {
      var n := |xs|;
      var from := Pos(xs, ys, nn);
      var far := DMax < dist(from, p);
      var q := if far then Target(goal, steered) else p;
      var cn := Plus(cs[nn], Finite(dist(from, q)));
      && goalFlag == (flag || (far && NearGoal(goal, steered)))
      && goalstate == (if far && NearGoal(goal, steered) then Some(n) else gs)
      && (!SegmentHits(obstacles, xs[nn], q.0, ys[nn], q.1) ==>
            && x == xs + [q.0] && y == ys + [q.1] && |parent| == n + 1 && parent[n] == nn
            && n < |cost| && cost[n] == cn
            && (forall i :: 0 <= i < n ==>
                  parent[i] == (if RewiredTo(xs, ys, cs, q, cn, i) then n else ps[i])
                  && cost[i] == (if RewiredTo(xs, ys, cs, q, cn, i) then Plus(cn, Finite(dist(Pos(xs, ys, i), q))) else cs[i])))
      && (SegmentHits(obstacles, xs[nn], q.0, ys[nn], q.1) ==>
            x == xs && y == ys && parent == ps && n <= |cost| && cost[..n] == cs)
      && n <= |parent| && n <= |cost|
      && (forall i :: 0 <= i < n ==> (parent[i] == ps[i] || parent[i] == n) && LessEq(cost[i], cs[i]))
    }

    /** A growth step whose segment was free ends in the state `Grown` describes. */
    lemma GrownWhenConnected(xs: seq<real>, ys: seq<real>, ps: seq<nat>, cs: seq<Cost>, flag: bool, gs: Option<nat>,
                             nn: nat, p: Point, steered: (int, int), q: Point, cn: Cost)
      requires nn < |xs| == |ys| == |ps| == |cs|
      requires q == (if DMax < dist(Pos(xs, ys, nn), p) then Target(goal, steered) else p)
      requires cn == Plus(cs[nn], Finite(dist(Pos(xs, ys, nn), q)))
      requires goalFlag == (flag || (DMax < dist(Pos(xs, ys, nn), p) && NearGoal(goal, steered)))
      requires goalstate == (if DMax < dist(Pos(xs, ys, nn), p) && NearGoal(goal, steered) then Some(|xs|) else gs)
      requires !SegmentHits(obstacles, xs[nn], q.0, ys[nn], q.1)
      requires x == xs + [q.0] && y == ys + [q.1] && |parent| == |xs| + 1 && parent[|xs|] == nn
      requires |xs| < |cost| && cost[|xs|] == cn
      requires forall i :: 0 <= i < |xs| ==>
                 parent[i] == (if RewiredTo(xs, ys, cs, q, cn, i) then |xs| else ps[i])
                 && cost[i] == (if RewiredTo(xs, ys, cs, q, cn, i) then Plus(cn, Finite(dist(Pos(xs, ys, i), q))) else cs[i])
      ensures Grown(xs, ys, ps, cs, flag, gs, nn, p, steered)
    {
    }

    /** A growth step whose segment was blocked ends in the state `Grown` describes. */
    lemma GrownWhenBlocked(xs: seq<real>, ys: seq<real>, ps: seq<nat>, cs: seq<Cost>, flag: bool, gs: Option<nat>,
                           nn: nat, p: Point, steered: (int, int), q: Point)
      requires nn < |xs| == |ys| == |ps| == |cs|
      requires q == (if DMax < dist(Pos(xs, ys, nn), p) then Target(goal, steered) else p)
      requires goalFlag == (flag || (DMax < dist(Pos(xs, ys, nn), p) && NearGoal(goal, steered)))
      requires goalstate == (if DMax < dist(Pos(xs, ys, nn), p) && NearGoal(goal, steered) then Some(|xs|) else gs)
      requires SegmentHits(obstacles, xs[nn], q.0, ys[nn], q.1)
      requires x == xs && y == ys && parent == ps && |xs| <= |cost| && cost[..|xs|] == cs
      ensures Grown(xs, ys, ps, cs, flag, gs, nn, p, steered)
    {
      assert forall i :: 0 <= i < |xs| ==> cost[i] == cs[i];
    }

    /**
     * `step` then `connect` on the tentative node `n`: the node is moved to
     * its placed point and attached under `nnear` exactly when that segment
     * is free, at the parent's cost plus the edge length.
     */
    method StepConnect(nnear: nat, n: nat, steered: (int, int)) returns (connected: bool)
      requires Tentative() && n == |x| - 1 && nnear < n
      modifies this`x, this`y, this`parent, this`cost, this`tie, this`goalFlag, this`goalstate
      ensures Valid()
      ensures var from, p := old(Pos(x, y, nnear)), old(Pos(x, y, n));
              var far := DMax < dist(from, p);
              var q := if far then Target(goal, steered) else p;
              && goalFlag == (old(goalFlag) || (far && NearGoal(goal, steered)))
              && goalstate == (if far && NearGoal(goal, steered) then Some(n) else old(goalstate))
              && (connected <==> !SegmentHits(obstacles, from.0, q.0, from.1, q.1))
              && (connected ==> x == old(x[..n]) + [q.0] && y == old(y[..n]) + [q.1]
                                && parent == old(parent) + [nnear]
                                && n < |cost| && cost[n] == Plus(old(cost[nnear]), Finite(dist(from, q))))
              && (!connected ==> x == old(x[..n]) && y == old(y[..n]) && parent == old(parent))
      ensures n <= |cost| && cost[..n] == old(cost[..n])
    {
      ghost var from := Pos(x, y, nnear);
      ghost var far := DMax < dist(from, Pos(x, y, n));
      ghost var q := if far then Target(goal, steered) else Pos(x, y, n);
      ghost var cs := cost[..n];
      assert Far(nnear, n) == far;
      Step(nnear, n, steered);
      assert x == old(x[..n]) + [q.0] && y == old(y[..n]) + [q.1];
      assert cost[..n] == cs;
      connected := Connect(nnear, n);
      assert cost[..n] == cs;
    }

    /**
     * `rewire(n)` right after `connect` attached node `n` at `q` with cost
     * `cn` to the tree `xs`, `ys`, `ps`, `cs`: exactly the earlier nodes
     * `RewiredTo` names are re-parented to `n`, at their cheaper cost.
     */
    method RewireNew(n: nat, ghost xs: seq<real>, ghost ys: seq<real>, ghost ps: seq<nat>, ghost cs: seq<Cost>,
                     ghost q: Point, ghost cn: Cost)
      requires n == |xs| == |ys| == |ps| == |cs|
      requires x == xs + [q.0] && y == ys + [q.1] && |parent| == n + 1 && parent[..n] == ps
      requires n < |cost| && cost[..n] == cs && cost[n] == cn
      modifies this`parent, this`cost, this`tie
      ensures |parent| == n + 1 && parent[n] == old(parent[n]) && |cost| == old(|cost|) && cost[n] == cn
      ensures forall i :: 0 <= i < n ==>
                parent[i] == (if RewiredTo(xs, ys, cs, q, cn, i) then n else ps[i])
                && cost[i] == (if RewiredTo(xs, ys, cs, q, cn, i) then Plus(cn, Finite(dist(Pos(xs, ys, i), q))) else cs[i])
      ensures old(Valid()) ==> Valid()
    {
      forall i | 0 <= i < n ensures Rewirable(n, i) == RewiredTo(xs, ys, cs, q, cn, i) {
        assert Pos(x, y, i) == Pos(xs, ys, i) && Pos(x, y, n) == q && cost[i] == cs[i];
      }
      Rewire(n);
      forall i | 0 <= i < n ensures cost[i] == (if RewiredTo(xs, ys, cs, q, cn, i) then Plus(cn, Finite(dist(Pos(xs, ys, i), q))) else cs[i]) {
        assert old(cost[i]) == cs[i];
      }
    }

    /**
     * `rewire(n)` after `step` and `connect` took the tree `xs`, `ys`, `ps`,
     * `cs` to the state `StepConnect` describes: the growth step then ends
     * in the state `Grown` describes.
     */
    method RewireGrown(n: nat, connected: bool, ghost xs: seq<real>, ghost ys: seq<real>, ghost ps: seq<nat>,
                       ghost cs: seq<Cost>, ghost flag: bool, ghost gs: Option<nat>, nn: nat, ghost p: Point,
                       steered: (int, int))
      requires Valid() && nn < n == |xs| == |ys| == |ps| == |cs|
      requires var from := Pos(xs, ys, nn);
               var far := DMax < dist(from, p);
               var q := if far then Target(goal, steered) else p;
               && goalFlag == (flag || (far && NearGoal(goal, steered)))
               && goalstate == (if far && NearGoal(goal, steered) then Some(n) else gs)
               && (connected <==> !SegmentHits(obstacles, from.0, q.0, from.1, q.1))
               && (connected ==> x == xs + [q.0] && y == ys + [q.1] && parent == ps + [nn]
                                 && n < |cost| && cost[n] == Plus(cs[nn], Finite(dist(from, q))))
               && (!connected ==> x == xs && y == ys && parent == ps)
      requires n <= |cost| && cost[..n] == cs
      modifies this`parent, this`cost, this`tie
      ensures Valid()
      ensures Grown(xs, ys, ps, cs, flag, gs, nn, p, steered)
    {
      ghost var from := Pos(xs, ys, nn);
      ghost var q := if DMax < dist(from, p) then Target(goal, steered) else p;
      if connected {
        ghost var cn := Plus(cs[nn], Finite(dist(from, q)));
        RewireNew(n, xs, ys, ps, cs, q, cn);
        GrownWhenConnected(xs, ys, ps, cs, flag, gs, nn, p, steered, q, cn);
      } else {
        Rewire(n);
        assert cost[..n] == cs;
        GrownWhenBlocked(xs, ys, ps, cs, flag, gs, nn, p, steered, q);
      }
    }

    /** The common end of `expand` and `bias`: `step`, `connect` and `rewire` on the tentative node `n`. */
    method StepConnectRewire(nnear: nat, n: nat, steered: (int, int))
      requires Tentative() && n == |x| - 1 && nnear < n
      modifies this`x, this`y, this`parent, this`cost, this`tie, this`goalFlag, this`goalstate
      ensures Valid()
      ensures Grown(old(x[..n]), old(y[..n]), old(parent), old(cost[..n]), old(goalFlag), old(goalstate),
                    nnear, old(Pos(x, y, n)), steered)
      ensures |x| == n || |x| == n + 1
      ensures x[..n] == old(x[..n]) && y[..n] == old(y[..n])
      ensures forall i :: 0 <= i < n ==> LessEq(cost[i], old(cost[i]))
      ensures old(goalFlag) ==> goalFlag
    {
      ghost var xs, ys, cs := x[..n], y[..n], cost[..n];
      ghost var from, p := Pos(x, y, nnear), Pos(x, y, n);
      ghost var q := if DMax < dist(from, p) then Target(goal, steered) else p;
      assert Pos(xs, ys, nnear) == from;
      var connected := StepConnect(nnear, n, steered);
      RewireGrown(n, connected, xs, ys, old(parent), cs, old(goalFlag), old(goalstate), nnear, p, steered);
    }

    /**
     * The common end of `expand` and `bias`: `nearest`, then `step`,
     * `connect` and `rewire` on the tentative node `n`, which ends in the
     * state `Grown` describes for the nearest node.
     */
    method Extend(n: nat, steered: (int, int))
      requires Tentative() && n == |x| - 1
      modifies this`x, this`y, this`parent, this`cost, this`tie, this`goalFlag, this`goalstate
      ensures Valid()
      ensures forall nn :: TreeSearch.NearestTo(old(x[..n]), old(y[..n]), dist, old(Pos(x, y, n)), nn) ==>
                Grown(old(x[..n]), old(y[..n]), old(parent), old(cost[..n]), old(goalFlag), old(goalstate),
                      nn, old(Pos(x, y, n)), steered)
      ensures |x| == n || |x| == n + 1
      ensures x[..n] == old(x[..n]) && y[..n] == old(y[..n])
      ensures forall i :: 0 <= i < n ==> LessEq(cost[i], old(cost[i]))
      ensures old(goalFlag) ==> goalFlag
    {
      var nnear := Nearest(n);
      StepConnectRewire(nnear, n, steered);
      forall nn | TreeSearch.NearestTo(old(x[..n]), old(y[..n]), dist, old(Pos(x, y, n)), nn) ensures nn == nnear {
        TreeSearch.NearestToUnique(old(x[..n]), old(y[..n]), dist, old(Pos(x, y, n)), nn, nnear);
      }
    }

    /**
     * `expand`: one growth iteration from a sample. The tree invariant is
     * kept, at most one node is added, existing nodes keep their positions,
     * their costs never rise, and the goal flag is never cleared.
     */
    method Expand(sample: (int, int), steered: (int, int)) returns (xs: seq<real>, ys: seq<real>, ps: seq<nat>)
      requires Valid()
      modifies this`x, this`y, this`parent, this`cost, this`tie, this`goalFlag, this`goalstate
      ensures Valid()
      ensures PointBlocked(obstacles, FromPixel(sample).0, FromPixel(sample).1) ==>
                x == old(x) && y == old(y) && parent == old(parent) && cost[..|x|] == old(cost[..|x|])
                && goalFlag == old(goalFlag) && goalstate == old(goalstate)
      ensures forall nn :: TreeSearch.NearestTo(old(x), old(y), dist, FromPixel(sample), nn) ==>
                !PointBlocked(obstacles, FromPixel(sample).0, FromPixel(sample).1) ==>
                Grown(old(x), old(y), old(parent), old(cost[..|x|]), old(goalFlag), old(goalstate),
                      nn, FromPixel(sample), steered)
      ensures xs == x && ys == y && ps == parent
      ensures |x| == old(|x|) || |x| == old(|x|) + 1
      ensures x[..old(|x|)] == old(x) && y[..old(|x|)] == old(y)
      ensures forall i :: 0 <= i < old(|x|) ==> LessEq(cost[i], old(cost[i]))
      ensures old(goalFlag) ==> goalFlag
    {
      var n := |x|;
      ghost var x0, y0, c0 := x, y, cost[..n];
      var s := FromPixel(sample);
      AddNode(n, s.0, s.1);
      var free := IsFree();
      if free {
        assert x[..n] == x0 && y[..n] == y0 && cost[..n] == c0 && Pos(x, y, n) == s;
        Extend(n, steered);
      }
      xs, ys, ps := x, y, parent;
    }

    /**
     * `bias`: one growth iteration aimed at the goal point `ngoal`, without
     * the free-point test (the segment test of `connect` samples the new
     * node itself).
     */
    method Bias(ngoal: Point, steered: (int, int)) returns (xs: seq<real>, ys: seq<real>, ps: seq<nat>)
      requires Valid()
      modifies this`x, this`y, this`parent, this`cost, this`tie, this`goalFlag, this`goalstate
      ensures Valid()
      ensures forall nn :: TreeSearch.NearestTo(old(x), old(y), dist, ngoal, nn) ==>
                Grown(old(x), old(y), old(parent), old(cost[..|x|]), old(goalFlag), old(goalstate), nn, ngoal, steered)
      ensures xs == x && ys == y && ps == parent
      ensures |x| == old(|x|) || |x| == old(|x|) + 1
      ensures x[..old(|x|)] == old(x) && y[..old(|x|)] == old(y)
      ensures forall i :: 0 <= i < old(|x|) ==> LessEq(cost[i], old(cost[i]))
      ensures old(goalFlag) ==> goalFlag
    {
      var n := |x|;
      ghost var x0, y0, c0 := x, y, cost[..n];
      AddNode(n, ngoal.0, ngoal.1);
      assert x[..n] == x0 && y[..n] == y0 && cost[..n] == c0 && Pos(x, y, n) == ngoal;
      Extend(n, steered);
      xs, ys, ps := x, y, parent;
    }
    /**
     * `path_to_goal`: when a goal index is recorded and names a node with a
     * parent, walks parent links from it to the root and stores the walk,
     * ending with the root.
     */
    method PathToGoal() returns (found: bool)
      requires Valid()
      modifies this`path
      ensures Valid()
      ensures found <==> goalFlag && goalstate.Some? && goalstate.value < |parent|
      ensures !found ==> path == old(path)
      ensures found ==> 2 <= |path| <= |parent| + 1 && path[0] == goalstate.value && path[|path| - 1] == 0
      ensures found ==> forall k :: 0 <= k < |path| - 1 ==> path[k + 1] == parent[path[k]]
      ensures found ==> forall k :: 0 < k < |path| - 1 ==> path[k] != 0
    {
      if goalFlag && goalstate.Some? && goalstate.value < |parent| {
        path := WalkToRoot(parent, goalstate.value, Snapshot(), dist, obstacles);
        return true;
      }
      return false;
    }

    /** `getPathCord`: the coordinates of the stored path, node by node. */
    method GetPathCord() returns (coords: seq<Point>)
      requires forall k :: 0 <= k < |path| ==> path[k] < |x| && path[k] < |y|
      ensures |coords| == |path|
      ensures forall k :: 0 <= k < |path| ==> coords[k] == Pos(x, y, path[k])
    {
      coords := [];
      for k := 0 to |path|
        invariant |coords| == k
        invariant forall j :: 0 <= j < k ==> coords[j] == Pos(x, y, path[j])
      {
        var node := path[k];
        coords := coords + [(x[node], y[node])];
      }
    }
  }
}
