/**
 * `RRTGraph` of RRT/src/RRTbasePy.py: the plain RRT tree, kept as parallel
 * lists without costs. Nodes and edges are added with list `insert`, and a
 * node's parent, once set, is never changed.
 */
module RRTBase {
  import opened Wrappers
  import opened Geometry
  import opened Collision
  import opened Steering
  import TreeSearch
  import ObstacleField

  /** Python's `list.insert(i, v)` for a non-negative index: past the end it appends. */
  function Insert<T>(s: seq<T>, i: nat, v: T): (r: seq<T>)
    ensures |r| == |s| + 1
    ensures i < |s| ==> r[..i] == s[..i] && r[i] == v && r[i + 1..] == s[i..]
    ensures |s| <= i ==> r == s + [v]
  {
    if i < |s| then s[..i] + [v] + s[i..] else s + [v]
  }

  /**
   * Inserting keeps the same elements plus the new one, and popping the
   * inserted position gives the list back.
   */
  lemma InsertRemoveRoundTrip<T>(s: seq<T>, i: nat, v: T)
    ensures multiset(Insert(s, i, v)) == multiset(s + [v])
    ensures var j := if i < |s| then i else |s|;
      Insert(s, i, v)[j] == v && Insert(s, i, v)[..j] + Insert(s, i, v)[j + 1..] == s
  {
    var r := Insert(s, i, v);
    if i < |s| {
      assert r == s[..i] + [v] + s[i..];
      assert s == s[..i] + s[i..];
      assert r[..i] + r[i + 1..] == s[..i] + s[i..];
      calc {
        multiset(r);
        multiset(s[..i]) + multiset([v]) + multiset(s[i..]);
        multiset(s[..i] + s[i..]) + multiset([v]);
        multiset(s + [v]);
      }
    } else {
      assert r[..|s|] == s;
    }
  }

  class RRTBaseGraph {
    const start: Point
    const goal: Point
    const obsdim: real
    const obsNumber: nat
    /** The distance used for nearest-neighbour search and the step bound. */
    const dist: Metric

    var x: seq<real>
    var y: seq<real>
    var parent: seq<nat>
    var obstacles: seq<Rect>
    var goalFlag: bool
    var goalstate: Option<nat>
    var path: seq<nat>

    /**
     * Every node but the first has a parent of lower index, joined to it by
     * a collision-free segment.
     */
    ghost predicate Linked()
      reads this
      requires |parent| <= |x| && |x| == |y|
    {
      forall i :: 0 < i < |parent| ==>
        parent[i] < i && !SegmentHits(obstacles, x[parent[i]], x[i], y[parent[i]], y[i])
    }

    /**
     * The goal flag is set exactly when a goal index is recorded; that index
     * is a node with a parent or, when the goal node was rejected, the next
     * index to be attached. The path names existing nodes.
     */
    ghost predicate Bookkeeping()
      reads this
    {
      && (goalFlag <==> goalstate.Some?)
      && (goalstate.Some? ==> goalstate.value <= |parent|)
      && (forall k :: 0 <= k < |path| ==> path[k] < |parent|)
    }

    /** Between growth steps: every node has a parent. */
    ghost predicate Valid()
      reads this
    {
      1 <= |parent| == |x| == |y| && parent[0] == 0 && Linked() && Bookkeeping()
    }

    /** Inside a growth step: the newest node has no parent yet. */
    ghost predicate Tentative()
      reads this
    {
      1 <= |parent| && |x| == |y| == |parent| + 1 && parent[0] == 0 && Linked() && Bookkeeping()
    }

    /** A valid tree's parent indices strictly decrease, so every node reaches the start node. */
    lemma ValidParentsDecrease()
      requires Valid()
      ensures forall i :: 0 < i < |parent| ==> parent[i] < i
      ensures forall i :: 0 < i < |x| ==> !PointBlocked(obstacles, x[i], y[i])
    {
      forall i | 0 < i < |x| ensures !PointBlocked(obstacles, x[i], y[i]) {
        var p := parent[i];
        if PointBlocked(obstacles, x[i], y[i]) {
          EndpointBlockedHits(obstacles, x[p], x[i], y[p], y[i]);
        }
      }
    }

    /** `__init__`: the tree holds only the start node, its own parent. */
    constructor(start: Point, goal: Point, obsdim: real, obsnum: nat, dist: Metric)
      ensures this.start == start && this.goal == goal && this.dist == dist
      ensures this.obsdim == obsdim && this.obsNumber == obsnum
      ensures x == [start.0] && y == [start.1] && parent == [0]
      ensures obstacles == [] && !goalFlag && goalstate == None && path == []
      ensures Valid()
    {
      this.start := start;
      this.goal := goal;
      this.obsdim := obsdim;
      this.obsNumber := obsnum;
      this.dist := dist;
      x := [start.0];
      y := [start.1];
      parent := [0];
      obstacles := [];
      goalFlag := false;
      goalstate := None;
      path := [];
    }

    /** `makeobs`: places up to `obsNumber` non-overlapping squares and stores them. */
    method MakeObs(draw: (nat, nat) -> (int, int)) returns (obs: seq<Rect>)
      modifies this`obstacles
      ensures obstacles == obs && |obs| <= obsNumber
      ensures forall k :: 0 <= k < |obs| ==> obs[k].width == obsdim && obs[k].height == obsdim
      ensures forall k, l :: 0 <= k < l < |obs| ==> !Overlaps(obs[l], obs[k])
      ensures forall k :: 0 <= k < |obs| ==> ObstacleField.AcceptedWithin(draw, obsdim, obs, k, ObstacleField.MaxIter)
      ensures forall k :: 0 <= k < |obs| - 1 ==> ObstacleField.AcceptedWithin(draw, obsdim, obs, k, ObstacleField.LastAttempt)
      ensures |obs| < obsNumber ==>
                || ObstacleField.Exhausted(draw, obsdim, obs, |obs|)
                || (0 < |obs| && ObstacleField.PlacedAt(draw, obsdim, obs, |obs| - 1, ObstacleField.LastAttempt))
      ensures old(Valid()) && |x| == 1 ==> Valid()
    {
      obs := ObstacleField.MakeObs(obsNumber, obsdim, draw);
      obstacles := obs;
    }

    /** `add_node`: inserts the point at index `n` only when `n` is not an existing index. */
    method AddNode(n: nat, px: real, py: real)
      modifies this`x, this`y
      ensures n < old(|x|) ==> x == old(x) && y == old(y)
      ensures old(|x|) <= n ==> x == old(x) + [px] && y == Insert(old(y), n, py)
      ensures old(Valid()) && old(|x|) <= n ==> Tentative()
    {
      if n >= |x| {
        x := Insert(x, n, px);
        y := Insert(y, n, py);
      }
    }

    /** `remove_node`: drops the coordinates of node `n`; its edge stays. */
    method RemoveNode(n: nat)
      requires n < |x| && n < |y|
      modifies this`x, this`y
      ensures x == old(x[..n] + x[n + 1..]) && y == old(y[..n] + y[n + 1..])
      ensures old(Tentative()) && n == old(|x|) - 1 ==> Valid()
    {
      x := x[..n] + x[n + 1..];
      y := y[..n] + y[n + 1..];
    }

    /** `add_edge`: inserts `p` into the parent list at index `child`. */
    method AddEdge(p: nat, child: nat)
      modifies this`parent
      ensures parent == Insert(old(parent), child, p)
      ensures (old(Tentative()) && child == old(|parent|) && p < child
               && !SegmentHits(obstacles, x[p], x[child], y[p], y[child])) ==> Valid()
    {
      parent := Insert(parent, child, p);
    }

    /** `distance` between two existing nodes. */
    function Distance(n1: nat, n2: nat): (d: real)
      reads this
      requires n1 < |x| && n2 < |x| && |x| == |y|
      ensures 0.0 <= d
      ensures n1 == n2 ==> d == 0.0
    {
      dist(Pos(x, y, n1), Pos(x, y, n2))
    }

    lemma DistanceSymmetric(n1: nat, n2: nat)
      requires n1 < |x| && n2 < |x| && |x| == |y|
      ensures Distance(n1, n2) == Distance(n2, n1)
    {
    }

    /** `nearest`: the lowest-index node among `0..n-1` closest to node `n` (0 when `n` is 0). */
    method Nearest(n: nat) returns (nnear: nat)
      requires n < |x| && |x| == |y|
      ensures n == 0 ==> nnear == 0
      ensures 0 < n ==> nnear < n
      ensures forall i :: 0 <= i < n ==> Distance(nnear, n) <= Distance(i, n)
      ensures forall i :: 0 <= i < nnear ==> Distance(nnear, n) < Distance(i, n)
      ensures 0 < n ==> TreeSearch.NearestTo(x[..n], y[..n], dist, Pos(x, y, n), nnear)
    {
      nnear := TreeSearch.Nearest(x, y, dist, n);
      assert forall i :: 0 <= i < |x| ==> Distance(i, n) == TreeSearch.DistTo(x, y, dist, i, n);
    }

    /**
     * `isFree`: tests the newest node against the obstacles front to back and
     * removes it on the first rectangle that contains it.
     */
    method IsFree() returns (free: bool)
      requires 0 < |x| == |y|
      modifies this`x, this`y
      ensures free <==> !PointBlocked(obstacles, old(x[|x| - 1]), old(y[|y| - 1]))
      ensures free ==> x == old(x) && y == old(y)
      ensures !free ==> x == old(x[..|x| - 1]) && y == old(y[..|y| - 1])
      ensures old(Tentative()) ==> if free then Tentative() else Valid()
    {
      var n := |x| - 1;
      var px, py := x[n], y[n];
      var obs := obstacles;
      while |obs| > 0
        invariant |obs| <= |obstacles| && obs == obstacles[|obstacles| - |obs|..]
        invariant forall k :: 0 <= k < |obstacles| - |obs| ==> !Contains(obstacles[k], px, py)
      {
        var rectang := obs[0];
        obs := obs[1..];
        if Contains(rectang, px, py) {
          assert Contains(obstacles[|obstacles| - |obs| - 1], px, py);
          RemoveNode(n);
          return false;
        }
      }
      return true;
    }

    /**
     * `connect`: inserts the edge `n1 -> n2` when the segment between them is
     * free; otherwise removes node `n2`.
     */
    method Connect(n1: nat, n2: nat) returns (ok: bool)
      requires n1 < |x| && n2 < |x| && |x| == |y|
      modifies this`x, this`y, this`parent
      ensures ok <==> !SegmentHits(obstacles, old(x[n1]), old(x[n2]), old(y[n1]), old(y[n2]))
      ensures ok ==> x == old(x) && y == old(y) && parent == Insert(old(parent), n2, n1)
      ensures !ok ==> x == old(x[..n2] + x[n2 + 1..]) && y == old(y[..n2] + y[n2 + 1..]) && parent == old(parent)
      ensures old(Tentative()) && n2 == old(|x|) - 1 && n1 < n2 ==> Valid()
    {
      var x1, y1 := x[n1], y[n1];
      var x2, y2 := x[n2], y[n2];
      var hit := CrossObstacles(obstacles, x1, x2, y1, y2);
      if hit {
        RemoveNode(n2);
        return false;
      } else {
        AddEdge(n1, n2);
        return true;
      }
    }

    /**
     * `step`: when node `nrand` is farther than `dmax` from `nnear`, it is
     * removed and `add_node(nrand, ...)` puts back the goal or the steered
     * point, which inserts only when `nrand` was the last index. The goal
     * index and flag are recorded whenever the steered point is near the
     * goal, whether or not the node was put back.
     */
    method Step(nnear: nat, nrand: nat, steered: (int, int))
      requires nnear < |x| && nrand < |x| && |x| == |y|
      modifies this`x, this`y, this`goalFlag, this`goalstate
      ensures old(Distance(nnear, nrand)) <= DMax ==>
                x == old(x) && y == old(y) && goalFlag == old(goalFlag) && goalstate == old(goalstate)
      ensures DMax < old(Distance(nnear, nrand)) ==>
                var xs := old(x[..nrand] + x[nrand + 1..]);
                var ys := old(y[..nrand] + y[nrand + 1..]);
                var target := Target(goal, steered);
                && x == (if nrand < |xs| then xs else xs + [target.0])
                && y == (if nrand < |xs| then ys else ys + [target.1])
                && goalFlag == (old(goalFlag) || NearGoal(goal, steered))
                && goalstate == if NearGoal(goal, steered) then Some(nrand) else old(goalstate)
      ensures nrand == old(|x|) - 1 ==> |x| == old(|x|) && |y| == old(|y|)
      ensures DMax < old(Distance(nnear, nrand)) && NearGoal(goal, steered) && nrand == old(|x|) - 1 ==>
                x[nrand] == goal.0 && y[nrand] == goal.1
      ensures old(Tentative()) && nrand == old(|x|) - 1 ==> Tentative()
    {
      var d := Distance(nnear, nrand);
      if d > DMax {
        RemoveNode(nrand);
        if NearGoal(goal, steered) {
          AddNode(nrand, goal.0, goal.1);
          goalstate := Some(nrand);
          goalFlag := true;
        } else {
          AddNode(nrand, steered.0 as real, steered.1 as real);
        }
      }
    }

    /**
     * The state after a growth step that proposed a node at `p` beside node
     * `nn` of the tree `xs`, `ys`, `ps` with goal record `flag`, `gs`. When
     * `p` is farther than `dmax` from `nn`, `step` moves the proposal to the
     * steered point, or onto the goal (recording its index). The node is
     * attached under `nn` exactly when that segment is free; otherwise the
     * tree keeps its nodes and edges.
     */
    ghost predicate Grown(xs: seq<real>, ys: seq<real>, ps: seq<nat>,
                          flag: bool, gs: Option<nat>, nn: nat, p: Point, steered: (int, int))
      reads this
      requires nn < |xs| == |ys| == |ps|
    {
      var n := |xs|;
      var from := Pos(xs, ys, nn);
      var far := DMax < dist(from, p);
      var q := if far then Target(goal, steered) else p;
      && goalFlag == (flag || (far && NearGoal(goal, steered)))
      && goalstate == (if far && NearGoal(goal, steered) then Some(n) else gs)
      && (!SegmentHits(obstacles, xs[nn], q.0, ys[nn], q.1) ==>
            x == xs + [q.0] && y == ys + [q.1] && parent == ps + [nn])
      && (SegmentHits(obstacles, xs[nn], q.0, ys[nn], q.1) ==> x == xs && y == ys && parent == ps)
    }

    /** The common end of `expand` and `bias`: `step` and `connect` on the tentative node `n`. */
    method StepConnect(nnear: nat, n: nat, steered: (int, int))
      requires Tentative() && n == |x| - 1 && nnear < n
      modifies this`x, this`y, this`parent, this`goalFlag, this`goalstate
      ensures Valid()
      ensures Grown(old(x[..n]), old(y[..n]), old(parent), old(goalFlag), old(goalstate),
                    nnear, old(Pos(x, y, n)), steered)
      ensures |x| == n || |x| == n + 1
      ensures x[..n] == old(x[..n]) && y[..n] == old(y[..n]) && parent[..n] == old(parent)
      ensures old(goalFlag) ==> goalFlag
    {
      ghost var xs, ys := x[..n], y[..n];
      ghost var from := Pos(xs, ys, nnear);
      ghost var far := DMax < dist(from, Pos(x, y, n));
      ghost var q := if far then Target(goal, steered) else Pos(x, y, n);
      assert Distance(nnear, n) == dist(from, Pos(x, y, n));
      Step(nnear, n, steered);
      assert x == xs + [q.0] && y == ys + [q.1];
      var connected := Connect(nnear, n);
    }

    /**
     * The common end of `expand` and `bias`: `nearest`, then `step` and
     * `connect` on the tentative node `n`, which ends in the state `Grown`
     * describes for the nearest node.
     */
    method Extend(n: nat, steered: (int, int))
      requires Tentative() && n == |x| - 1
      modifies this`x, this`y, this`parent, this`goalFlag, this`goalstate
      ensures Valid()
      ensures forall nn :: TreeSearch.NearestTo(old(x[..n]), old(y[..n]), dist, old(Pos(x, y, n)), nn) ==>
                Grown(old(x[..n]), old(y[..n]), old(parent), old(goalFlag), old(goalstate), nn, old(Pos(x, y, n)), steered)
      ensures |x| == n || |x| == n + 1
      ensures x[..n] == old(x[..n]) && y[..n] == old(y[..n]) && parent[..n] == old(parent)
      ensures old(goalFlag) ==> goalFlag
    {
      var nnear := Nearest(n);
      StepConnect(nnear, n, steered);
      forall nn | TreeSearch.NearestTo(old(x[..n]), old(y[..n]), dist, old(Pos(x, y, n)), nn) ensures nn == nnear {
        TreeSearch.NearestToUnique(old(x[..n]), old(y[..n]), dist, old(Pos(x, y, n)), nn, nnear);
      }
    }

    /**
     * `expand`: one growth iteration from a sample. The invariant is kept, at
     * most one node and one edge are added, and existing nodes keep their
     * positions and parents.
     */
    method Expand(sample: (int, int), steered: (int, int)) returns (xs: seq<real>, ys: seq<real>, ps: seq<nat>)
      requires Valid()
      modifies this`x, this`y, this`parent, this`goalFlag, this`goalstate
      ensures Valid()
      ensures PointBlocked(obstacles, FromPixel(sample).0, FromPixel(sample).1) ==>
                x == old(x) && y == old(y) && parent == old(parent)
                && goalFlag == old(goalFlag) && goalstate == old(goalstate)
      ensures forall nn :: TreeSearch.NearestTo(old(x), old(y), dist, FromPixel(sample), nn) ==>
                !PointBlocked(obstacles, FromPixel(sample).0, FromPixel(sample).1) ==>
                Grown(old(x), old(y), old(parent), old(goalFlag), old(goalstate), nn, FromPixel(sample), steered)
      ensures xs == x && ys == y && ps == parent
      ensures |x| == old(|x|) || |x| == old(|x|) + 1
      ensures x[..old(|x|)] == old(x) && y[..old(|x|)] == old(y) && parent[..old(|parent|)] == old(parent)
      ensures old(goalFlag) ==> goalFlag
    {
      var n := |x|;
      ghost var x0, y0 := x, y;
      var s := FromPixel(sample);
      AddNode(n, s.0, s.1);
      var free := IsFree();
      if free {
        assert x[..n] == x0 && y[..n] == y0 && Pos(x, y, n) == s;
        Extend(n, steered);
      }
      xs, ys, ps := x, y, parent;
    }

    /** `bias`: one growth iteration aimed at the goal point `ngoal`, without the free-point test. */
    method Bias(ngoal: Point, steered: (int, int)) returns (xs: seq<real>, ys: seq<real>, ps: seq<nat>)
      requires Valid()
      modifies this`x, this`y, this`parent, this`goalFlag, this`goalstate
      ensures Valid()
      ensures forall nn :: TreeSearch.NearestTo(old(x), old(y), dist, ngoal, nn) ==>
                Grown(old(x), old(y), old(parent), old(goalFlag), old(goalstate), nn, ngoal, steered)
      ensures xs == x && ys == y && ps == parent
      ensures |x| == old(|x|) || |x| == old(|x|) + 1
      ensures x[..old(|x|)] == old(x) && y[..old(|x|)] == old(y) && parent[..old(|parent|)] == old(parent)
      ensures old(goalFlag) ==> goalFlag
    {
      var n := |x|;
      ghost var x0, y0 := x, y;
      AddNode(n, ngoal.0, ngoal.1);
      assert x[..n] == x0 && y[..n] == y0 && Pos(x, y, n) == ngoal;
      Extend(n, steered);
      xs, ys, ps := x, y, parent;
    }

    /**
     * `path_to_goal`: when a goal index is recorded and names a node with a
     * parent, walks parent links from it to the root; the indices on the
     * walk strictly decrease.
     */
    method PathToGoal() returns (found: bool)
      requires Valid()
      modifies this`path
      ensures Valid()
      ensures found <==> goalFlag && goalstate.Some? && goalstate.value < |parent|
      ensures !found ==> path == old(path)
      ensures found ==> 2 <= |path| <= goalstate.value + 2 && path[0] == goalstate.value && path[|path| - 1] == 0
      ensures found ==> forall k :: 0 <= k < |path| - 1 ==> path[k + 1] == parent[path[k]]
      ensures found ==> forall k :: 0 <= k < |path| - 2 ==> path[k + 1] < path[k]
    {
      if goalFlag && goalstate.Some? && goalstate.value < |parent| {
        var g := goalstate.value;
        path := [g];
        var newpos := parent[g];
        while newpos != 0
          invariant newpos < |parent| && (g == 0 ==> newpos == 0 && |path| == 1)
          invariant 1 <= |path| && path[0] == g
          invariant forall k :: 0 <= k < |path| ==> path[k] < |parent|
          invariant parent[path[|path| - 1]] == newpos
          invariant forall k :: 0 <= k < |path| - 1 ==> path[k + 1] == parent[path[k]]
          invariant forall k :: 0 <= k < |path| - 1 ==> path[k + 1] < path[k]
          invariant g != 0 ==> newpos < path[|path| - 1] && |path| + newpos <= g + 1
          decreases newpos
        {
          path := path + [newpos];
          newpos := parent[newpos];
        }
        path := path + [0];
        return true;
      }
      return false;
    }

    /** `getPathCord`: the coordinates of the stored path, node by node. */
    method GetPathCord() returns (coords: seq<Point>)
      requires forall k :: 0 <= k < |path| ==> path[k] < |x| && path[k] < |y|
      ensures |coords| == |path|
      ensures forall k :: 0 <= k < |path| ==> coords[k] == Pos(x, y, path[k])
    {
      coords := [];
      for k := 0 to |path|
        invariant |coords| == k
        invariant forall j :: 0 <= j < k ==> coords[j] == Pos(x, y, path[j])
      {
        var node := path[k];
        coords := coords + [(x[node], y[node])];
      }
    }
  }
}
