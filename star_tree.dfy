/**
 * The RRT* tree as a value: the parallel lists `x`, `y`, `parent` and `cost`
 * of RRT/src/RRT_star.py, the invariant every completed growth step keeps,
 * and why the parent links cannot form a cycle.
 *
 * `cost` is at least as long as `x` because removing a node never pops it;
 * the entries past the live nodes are all infinite.
 *
 * Rewiring only promises `cost[parent[i]] + d(parent[i], i) <= cost[i]`
 * (descendants are not updated), and edges of length zero are possible, so
 * that inequality alone does not exclude a cycle. The ghost list `tie`
 * breaks ties between equal costs: along every edge the parent is ranked
 * strictly below the child, by cost and then by `tie`.
 */
module StarTree {
  import opened Geometry
  import opened Costs
  import opened Collision

  datatype Tree = Tree(x: seq<real>, y: seq<real>, parent: seq<nat>, cost: seq<Cost>, tie: seq<nat>)

  /** The nodes with a parent are `0..|parent|-1`; a trailing tentative node may follow. */
  ghost predicate Indexed(t: Tree)
  {
    1 <= |t.parent| <= |t.x| && |t.x| == |t.y| && |t.x| <= |t.cost| && |t.tie| == |t.parent|
  }

  /** Length of the edge from node `p` to node `i`. */
  function EdgeLength(t: Tree, dist: Metric, p: nat, i: nat): real
    requires p < |t.x| && i < |t.x| && |t.x| == |t.y|
  {
    dist(Pos(t.x, t.y, p), Pos(t.x, t.y, i))
  }

  /** Node `a` ranks below node `b`: lower cost, or equal cost and a lower tie-break. */
  ghost predicate RankLess(t: Tree, a: nat, b: nat)
    requires Indexed(t) && a < |t.parent| && b < |t.parent|
  {
    Less(t.cost[a], t.cost[b]) || (t.cost[a] == t.cost[b] && t.tie[a] < t.tie[b])
  }

  /**
   * The edge into node `i`: reaching `i` through its parent costs no more
   * than the recorded cost, the parent ranks below `i`, and the segment is
   * collision-free.
   */
  ghost predicate EdgeOk(t: Tree, dist: Metric, obs: seq<Rect>, i: nat)
    requires Indexed(t) && 0 < i < |t.parent| && t.parent[i] < |t.parent|
  {
    var p := t.parent[i];
    && LessEq(Plus(t.cost[p], Finite(EdgeLength(t, dist, p, i))), t.cost[i])
    && RankLess(t, p, i)
    && !SegmentHits(obs, t.x[p], t.x[i], t.y[p], t.y[i])
  }

  /** The tree invariant (with or without a trailing tentative node). */
  ghost predicate Shaped(t: Tree, dist: Metric, obs: seq<Rect>)
  {
    && Indexed(t)
    && t.parent[0] == 0 && t.cost[0] == Finite(0.0)
    && (forall i :: 0 <= i < |t.parent| ==> t.cost[i].Finite? && 0.0 <= t.cost[i].value)
    && (forall k :: |t.parent| <= k < |t.cost| ==> t.cost[k] == Infinite)
    && (forall i :: 0 < i < |t.parent| ==> t.parent[i] < |t.parent| && EdgeOk(t, dist, obs, i))
  }

  /** Every node has its parent: the state after a completed growth step. */
  ghost predicate Complete(t: Tree, dist: Metric, obs: seq<Rect>)
  {
    Shaped(t, dist, obs) && |t.x| == |t.parent|
  }

  /** The newest node is still waiting for its parent (cost infinite). */
  ghost predicate Pending(t: Tree, dist: Metric, obs: seq<Rect>)
  {
    Shaped(t, dist, obs) && |t.x| == |t.parent| + 1
  }

  /** The edge test reads only the two endpoints' positions, costs and ties. */
  lemma EdgeOkFrame(t: Tree, u: Tree, dist: Metric, obs: seq<Rect>, i: nat)
    requires Indexed(t) && Indexed(u) && 0 < i < |t.parent| && i < |u.parent|
    requires t.parent[i] < |t.parent| && u.parent[i] == t.parent[i] < |u.parent|
    requires var p := t.parent[i];
      && t.x[p] == u.x[p] && t.y[p] == u.y[p] && t.x[i] == u.x[i] && t.y[i] == u.y[i]
      && t.cost[p] == u.cost[p] && t.cost[i] == u.cost[i] && t.tie[p] == u.tie[p] && t.tie[i] == u.tie[i]
    ensures EdgeOk(t, dist, obs, i) == EdgeOk(u, dist, obs, i)
  {
  }

  // ---------------------------------------------------------------------------
  // Acyclicity: every node reaches the root by following parent links.

  /** Following parent links from `i` reaches node 0 within `k` steps. */
  ghost predicate ReachesRoot(parent: seq<nat>, i: nat, k: nat)
    decreases k
  {
    i == 0 || (0 < k && i < |parent| && ReachesRoot(parent, parent[i], k - 1))
  }

  lemma {:induction false} ReachesRootMono(parent: seq<nat>, i: nat, k: nat, k': nat)
    requires k <= k' && ReachesRoot(parent, i, k)
    ensures ReachesRoot(parent, i, k')
    decreases k
  {
    if i != 0 {
      ReachesRootMono(parent, parent[i], k - 1, k' - 1);
    }
  }

  /** The nodes ranked below node `i`. */
  ghost function Below(t: Tree, i: nat): set<nat>
    requires Indexed(t) && i < |t.parent|
  {
    set j: nat | j < |t.parent| && RankLess(t, j, i)
  }

  lemma SubsetCard<T>(a: set<T>, b: set<T>)
    requires a <= b
    ensures |a| <= |b|
  {
    assert b == a + (b - a);
    assert a * (b - a) == {};
  }

  /** The node indices `0..n-1`. */
  ghost function Range(n: nat): set<nat>
  {
    if n == 0 then {} else Range(n - 1) + {n - 1}
  }

  lemma {:induction false} RangeFacts(n: nat)
    ensures |Range(n)| == n
    ensures forall j: nat :: j in Range(n) <==> j < n
  {
    if n > 0 {
      RangeFacts(n - 1);
    }
  }

  /** Moving to a node ranked lower strictly shrinks the set below. */
  lemma BelowShrinks(t: Tree, p: nat, i: nat)
    requires Indexed(t) && p < |t.parent| && i < |t.parent| && RankLess(t, p, i)
    ensures |Below(t, p)| < |Below(t, i)|
  {
    forall j | j in Below(t, p) ensures j in Below(t, i) {
      LessIsStrictOrder(t.cost[j], t.cost[p], t.cost[i]);
    }
    LessIsStrictOrder(t.cost[p], t.cost[p], t.cost[p]);
    assert p !in Below(t, p);
    SubsetCard(Below(t, p) + {p}, Below(t, i));
  }

  /** Fewer than `|parent|` nodes rank below any node. */
  lemma BelowBound(t: Tree, i: nat)
    requires Indexed(t) && i < |t.parent|
    ensures |Below(t, i)| < |t.parent|
  {
    LessIsStrictOrder(t.cost[i], t.cost[i], t.cost[i]);
    RangeFacts(|t.parent|);
    SubsetCard(Below(t, i) + {i}, Range(|t.parent|));
  }

  lemma {:induction false} WalkReachesRoot(t: Tree, dist: Metric, obs: seq<Rect>, i: nat)
    requires Shaped(t, dist, obs) && i < |t.parent|
    ensures ReachesRoot(t.parent, i, |Below(t, i)|)
    decreases |Below(t, i)|
  {
    if i != 0 {
      var p := t.parent[i];
      BelowShrinks(t, p, i);
      WalkReachesRoot(t, dist, obs, p);
      ReachesRootMono(t.parent, p, |Below(t, p)|, |Below(t, i)| - 1);
    }
  }

  /** The parent relation is acyclic: every node reaches the root within `|parent|` steps. */
  lemma ShapedAcyclic(t: Tree, dist: Metric, obs: seq<Rect>)
    requires Shaped(t, dist, obs)
    ensures forall i :: 0 <= i < |t.parent| ==> ReachesRoot(t.parent, i, |t.parent|)
  {
    forall i | 0 <= i < |t.parent| ensures ReachesRoot(t.parent, i, |t.parent|) {
      WalkReachesRoot(t, dist, obs, i);
      BelowBound(t, i);
      ReachesRootMono(t.parent, i, |Below(t, i)|, |t.parent|);
    }
  }

  /** Costs never increase towards the root, and no node with a parent lies in an obstacle. */
  lemma ShapedEdges(t: Tree, dist: Metric, obs: seq<Rect>, i: nat)
    requires Shaped(t, dist, obs) && 0 < i < |t.parent|
    ensures LessEq(t.cost[t.parent[i]], t.cost[i])
    ensures !PointBlocked(obs, t.x[i], t.y[i])
  {
    var p := t.parent[i];
    assert EdgeOk(t, dist, obs, i);
    if PointBlocked(obs, t.x[i], t.y[i]) {
      EndpointBlockedHits(obs, t.x[p], t.x[i], t.y[p], t.y[i]);
    }
  }

  // ---------------------------------------------------------------------------
  // The steps of one growth iteration.

  /** `add_node`: append a tentative node with an infinite cost. */
  lemma Propose(t: Tree, dist: Metric, obs: seq<Rect>, px: real, py: real)
    requires Complete(t, dist, obs)
    ensures Pending(t.(x := t.x + [px], y := t.y + [py], cost := t.cost + [Infinite]), dist, obs)
  {
    var u := t.(x := t.x + [px], y := t.y + [py], cost := t.cost + [Infinite]);
    forall i | 0 < i < |u.parent| ensures u.parent[i] < |u.parent| && EdgeOk(u, dist, obs, i) {
      EdgeOkFrame(t, u, dist, obs, i);
    }
  }

  /** `remove_node` on the tentative node restores a complete tree. */
  lemma Discard(t: Tree, dist: Metric, obs: seq<Rect>)
    requires Pending(t, dist, obs)
    ensures Complete(t.(x := t.x[..|t.parent|], y := t.y[..|t.parent|]), dist, obs)
  {
    var u := t.(x := t.x[..|t.parent|], y := t.y[..|t.parent|]);
    forall i | 0 < i < |u.parent| ensures u.parent[i] < |u.parent| && EdgeOk(u, dist, obs, i) {
      EdgeOkFrame(t, u, dist, obs, i);
    }
  }

  /** `add_edge(near, n)` after a collision-free check attaches the tentative node. */
  lemma Attach(t: Tree, dist: Metric, obs: seq<Rect>, near: nat)
    requires Pending(t, dist, obs) && near < |t.parent|
    requires var n := |t.parent|; !SegmentHits(obs, t.x[near], t.x[n], t.y[near], t.y[n])
    ensures var n := |t.parent|;
      Complete(t.(parent := t.parent + [near],
                  cost := t.cost[n := Plus(t.cost[near], Finite(EdgeLength(t, dist, near, n)))],
                  tie := t.tie + [t.tie[near] + 1]), dist, obs)
  {
    var n := |t.parent|;
    var c := Plus(t.cost[near], Finite(EdgeLength(t, dist, near, n)));
    var u := t.(parent := t.parent + [near], cost := t.cost[n := c], tie := t.tie + [t.tie[near] + 1]);
    forall i | 0 < i < n ensures u.parent[i] < |u.parent| && EdgeOk(u, dist, obs, i) {
      EdgeOkFrame(t, u, dist, obs, i);
    }
    assert EdgeOk(u, dist, obs, n);
  }

  /**
   * One re-parenting of `rewire`: node `i` moves under `nw` when that is
   * strictly cheaper and the segment is free. The invariant survives,
   * with `tie[i]` moved just above `tie[nw]`.
   */
  lemma RewireStep(t: Tree, dist: Metric, obs: seq<Rect>, nw: nat, i: nat)
    requires Complete(t, dist, obs) && nw < |t.parent| && i < |t.parent| && i != nw
    requires Less(Plus(t.cost[nw], Finite(EdgeLength(t, dist, i, nw))), t.cost[i])
    requires !SegmentHits(obs, t.x[nw], t.x[i], t.y[nw], t.y[i])
    ensures i != 0
    ensures Complete(t.(parent := t.parent[i := nw],
                        cost := t.cost[i := Plus(t.cost[nw], Finite(EdgeLength(t, dist, i, nw)))],
                        tie := t.tie[i := t.tie[nw] + 1]), dist, obs)
  {
    var c := Plus(t.cost[nw], Finite(EdgeLength(t, dist, i, nw)));
    var u := t.(parent := t.parent[i := nw], cost := t.cost[i := c], tie := t.tie[i := t.tie[nw] + 1]);
    assert EdgeLength(t, dist, i, nw) == EdgeLength(t, dist, nw, i);
    forall j | 0 < j < |u.parent| ensures u.parent[j] < |u.parent| && EdgeOk(u, dist, obs, j) {
      if j == i {
        assert EdgeOk(u, dist, obs, j);
      } else if t.parent[j] == i {
        assert EdgeOk(t, dist, obs, j);
        assert EdgeOk(u, dist, obs, j);
      } else {
        EdgeOkFrame(t, u, dist, obs, j);
      }
    }
  }

  /**
   * The loop of `path_to_goal`: from node `g`, follow parent links, collecting
   * each node until the start node is reached, and end the walk with it.
   */
  method WalkToRoot(parent: seq<nat>, g: nat, ghost t: Tree, ghost dist: Metric, ghost obs: seq<Rect>)
    returns (walk: seq<nat>)
    requires Shaped(t, dist, obs) && parent == t.parent && g < |parent|
    ensures 2 <= |walk| <= |parent| + 1 && walk[0] == g && walk[|walk| - 1] == 0
    ensures forall k :: 0 <= k < |walk| ==> walk[k] < |parent|
    ensures forall k :: 0 <= k < |walk| - 1 ==> walk[k + 1] == parent[walk[k]]
    ensures forall k :: 0 < k < |walk| - 1 ==> walk[k] != 0
  {
    walk := [g];
    var newpos := parent[g];
    if g != 0 {
      assert EdgeOk(t, dist, obs, g);
      BelowShrinks(t, newpos, g);
    }
    while newpos != 0
      invariant newpos < |parent|
      invariant 1 <= |walk| && walk[0] == g
      invariant forall k :: 0 <= k < |walk| ==> walk[k] < |parent|
      invariant parent[walk[|walk| - 1]] == newpos
      invariant forall k :: 0 <= k < |walk| - 1 ==> walk[k + 1] == parent[walk[k]]
      invariant forall k :: 0 < k < |walk| ==> walk[k] != 0
      invariant g == 0 ==> newpos == 0 && |walk| == 1
      invariant g != 0 ==> |walk| + |Below(t, newpos)| <= |Below(t, g)|
      decreases |Below(t, newpos)|
    {
      walk := walk + [newpos];
      var next := parent[newpos];
      assert EdgeOk(t, dist, obs, newpos);
      BelowShrinks(t, next, newpos);
      newpos := next;
    }
    if g != 0 {
      BelowBound(t, g);
    }
    walk := walk + [0];
  }
}
