/** Hop counts in the analyzer's link graph. */
module ShortestHops {
  import opened Wrappers

  /** A directed graph: node id to the set of its neighbors. */
  type Edges = map<int, set<int>>

  function Succ(edges: Edges, u: int): set<int> {
    if u in edges then edges[u] else {}
  }

  /** There is a walk of exactly n hops from src to v. */
  ghost predicate Walk(edges: Edges, src: int, v: int, n: nat)
    decreases n
  {
    if n == 0 then v == src
    else exists u :: Walk(edges, src, u, n - 1) && v in Succ(edges, u)
  }

  /** Where the search stands: `dist` holds a hop count for every node seen, `frontier` the nodes not yet expanded. */
  ghost predicate Searching(edges: Edges, src: int, dst: int, dist: map<int, nat>, frontier: set<(nat, int)>) {
    && src in dist && dist[src] == 0
    && (forall v <- dist :: Walk(edges, src, v, dist[v]))
    && (forall e <- frontier :: e.1 in dist && dist[e.1] == e.0)
    && (dst in dist ==> (dist[dst], dst) in frontier)
  }

  /** The neighbors of a node are seen, at most one hop further out. */
  ghost predicate Expanded(edges: Edges, dist: map<int, nat>, u: int)
    requires u in dist
  {
    forall v <- Succ(edges, u) :: v in dist && dist[v] <= dist[u] + 1
  }

  ghost predicate AllExpanded(edges: Edges, dist: map<int, nat>, frontier: set<(nat, int)>) {
    forall u <- dist :: (dist[u], u) in frontier || Expanded(edges, dist, u)
  }

  /** Every walk either ends at an expanded node in time or passes a frontier node no further out than it is long. */
  lemma {:induction false} WalkMeetsFrontier(edges: Edges, src: int, dst: int, dist: map<int, nat>,
                                             frontier: set<(nat, int)>, v: int, n: nat)
    requires Searching(edges, src, dst, dist, frontier) && AllExpanded(edges, dist, frontier)
    requires Walk(edges, src, v, n)
    ensures (v in dist && (dist[v], v) !in frontier && dist[v] <= n) || exists e <- frontier :: e.0 <= n
    decreases n
  {
    if n == 0 {
      assert v == src;
    } else {
      var u :| Walk(edges, src, u, n - 1) && v in Succ(edges, u);
      WalkMeetsFrontier(edges, src, dst, dist, frontier, u, n - 1);
      if u in dist && (dist[u], u) !in frontier && dist[u] <= n - 1 {
        assert Expanded(edges, dist, u);
      }
    }
  }

  /** The heap pops the least pair: distance first, then node id. */
  ghost predicate IsTop(frontier: set<(nat, int)>, top: (nat, int)) {
    top in frontier && forall e | e in frontier :: top.0 < e.0 || (top.0 == e.0 && top.1 <= e.1)
  }

  lemma {:induction false} TopExists(frontier: set<(nat, int)>) returns (top: (nat, int))
    requires frontier != {}
    ensures IsTop(frontier, top)
    decreases |frontier|
  {
    top :| top in frontier;
    if frontier - {top} != {} {
      var t := TopExists(frontier - {top});
      if t.0 < top.0 || (t.0 == top.0 && t.1 <= top.1) {
        top := t;
      }
    }
  }

  function Universe(edges: Edges, src: int): set<int> {
    {src} + set u, v | u in edges && v in edges[u] :: v
  }

  /**
   * The exact minimum hop count, or None exactly when dst cannot be reached, for every finite graph,
   * although a node is marked seen when it is pushed and not when it is popped.
   */
  method ShortestHops(edges: Edges, src: int, dst: int) returns (hops: Option<nat>)
    ensures hops.Some? ==> Walk(edges, src, dst, hops.value)
    ensures hops.Some? ==> forall n | Walk(edges, src, dst, n) :: hops.value <= n
    ensures hops.None? ==> forall n :: !Walk(edges, src, dst, n)
  {
    hide Walk, Searching, AllExpanded;
    if src == dst {
      ZeroHops(edges, src);
      return Some(0);
    }
    var seen := {src};
    var frontier: set<(nat, int)> := {(0, src)};
    ghost var dist: map<int, nat> := map[src := 0];
    ghost var last := 0;
    StartSearch(edges, src, dst);
    while frontier != {}
      invariant seen == dist.Keys && seen <= Universe(edges, src)
      invariant Searching(edges, src, dst, dist, frontier) && AllExpanded(edges, dist, frontier)
      invariant Layered(dist, frontier, last)
      decreases Universe(edges, src) - seen, |frontier|
    {
      var top := PopTop(frontier);
      var (d, u) := top;
      if u == dst {
        FirstPopIsShortest(edges, src, dst, dist, frontier, top);
        return Some(d);
      }
      StartExpanding(edges, src, dst, dist, frontier, last, top);
      last := d;
      ghost var seenBefore := seen;
      frontier := frontier - {top};
      frontier, seen, dist := PushNeighbors(edges, src, dst, frontier, seen, dist, d, u);
      assert seen != seenBefore ==> Universe(edges, src) - seen < Universe(edges, src) - seenBefore;
    }
    EmptyFrontierUnreachable(edges, src, dst, dist);
    return None;
  }

  method PopTop(frontier: set<(nat, int)>) returns (top: (nat, int))
    requires frontier != {}
    ensures IsTop(frontier, top)
  {
    ghost var t := TopExists(frontier);
    top :| top in frontier && forall e | e in frontier :: top.0 < e.0 || (top.0 == e.0 && top.1 <= e.1);
  }

  /** Distances seen and pending are within one hop of the last distance popped. */
  ghost predicate Layered(dist: map<int, nat>, frontier: set<(nat, int)>, last: nat) {
    && (forall v <- dist :: dist[v] <= last + 1)
    && (forall e <- frontier :: last <= e.0)
  }

  lemma {:induction false} ZeroHops(edges: Edges, src: int)
    ensures Walk(edges, src, src, 0)
  {}

  lemma {:induction false} StartSearch(edges: Edges, src: int, dst: int)
    requires src != dst
    ensures Searching(edges, src, dst, map[src := 0], {(0, src)})
    ensures AllExpanded(edges, map[src := 0], {(0, src)})
  {}

  lemma {:induction false} FirstPopIsShortest(edges: Edges, src: int, dst: int, dist: map<int, nat>,
                                              frontier: set<(nat, int)>, top: (nat, int))
    requires Searching(edges, src, dst, dist, frontier) && AllExpanded(edges, dist, frontier)
    requires IsTop(frontier, top) && top.1 == dst
    ensures Walk(edges, src, dst, top.0)
    ensures forall n | Walk(edges, src, dst, n) :: top.0 <= n
  {
    forall n | Walk(edges, src, dst, n)
      ensures top.0 <= n
    {
      WalkMeetsFrontier(edges, src, dst, dist, frontier, dst, n);
    }
  }

  lemma {:induction false} EmptyFrontierUnreachable(edges: Edges, src: int, dst: int, dist: map<int, nat>)
    requires Searching(edges, src, dst, dist, {}) && AllExpanded(edges, dist, {})
    ensures forall n :: !Walk(edges, src, dst, n)
  {
    forall n
      ensures !Walk(edges, src, dst, n)
    {
      if Walk(edges, src, dst, n) {
        WalkMeetsFrontier(edges, src, dst, dist, {}, dst, n);
        assert false;
      }
    }
  }

  lemma {:induction false} StartExpanding(edges: Edges, src: int, dst: int, dist: map<int, nat>, frontier: set<(nat,
                                          int)>, last: nat, top: (nat, int))
    requires Searching(edges, src, dst, dist, frontier) && AllExpanded(edges, dist, frontier)
    requires Layered(dist, frontier, last) && IsTop(frontier, top) && top.1 != dst
    ensures top.1 in dist && dist[top.1] == top.0
    ensures Searching(edges, src, dst, dist, frontier - {top})
    ensures AllExpanded(edges, dist, frontier - {top} + {(top.0, top.1)})
    ensures Layered(dist, frontier - {top}, top.0)
  {
    assert frontier - {top} + {(top.0, top.1)} == frontier;
  }

  /** The inner loop: push every neighbor of the popped node that has not been seen. */
  method PushNeighbors(edges: Edges, src: int, dst: int, frontier0: set<(nat, int)>, seen0: set<int>,
                       ghost dist0: map<int, nat>, d: nat, u: int)
    returns (frontier: set<(nat, int)>, seen: set<int>, ghost dist: map<int, nat>)
    requires seen0 == dist0.Keys && seen0 <= Universe(edges, src)
    requires u in dist0 && dist0[u] == d && u != dst
    requires Searching(edges, src, dst, dist0, frontier0)
    requires AllExpanded(edges, dist0, frontier0 + {(d, u)})
    requires Layered(dist0, frontier0, d)
    ensures seen == dist.Keys && seen0 <= seen <= Universe(edges, src)
    ensures Searching(edges, src, dst, dist, frontier) && AllExpanded(edges, dist, frontier)
    ensures Layered(dist, frontier, d)
    ensures seen == seen0 ==> frontier == frontier0
  {
    hide Searching, AllExpanded, Layered, Universe;
    frontier, seen, dist := frontier0, seen0, dist0;
    var todo: set<int> := Succ(edges, u);
    while todo != {}
      invariant todo <= Succ(edges, u)
      invariant seen == dist.Keys && seen0 <= seen <= Universe(edges, src)
      invariant u in dist && dist[u] == d
      invariant Searching(edges, src, dst, dist, frontier)
      invariant AllExpanded(edges, dist, frontier + {(d, u)})
      invariant forall v <- Succ(edges, u) :: v in todo || (v in dist && dist[v] <= d + 1)
      invariant Layered(dist, frontier, d)
      invariant seen == seen0 ==> frontier == frontier0
      decreases |todo|
    {
      var v := Pick(todo);
      todo := todo - {v};
      if v in seen {
        LayeredBound(dist, frontier, d, v);
        continue;
      }
      SuccInUniverse(edges, src, u, v);
      PushOne(edges, src, dst, dist, frontier, d, u, v);
      seen := seen + {v};
      dist := dist[v := d + 1];
      frontier := frontier + {(d + 1, v)};
    }
    DoneExpanding(edges, dist, frontier, d, u);
  }

  lemma {:induction false} LayeredBound(dist: map<int, nat>, frontier: set<(nat, int)>, d: nat, v: int)
    requires Layered(dist, frontier, d) && v in dist
    ensures dist[v] <= d + 1
  {}

  lemma {:induction false} SuccInUniverse(edges: Edges, src: int, u: int, v: int)
    requires v in Succ(edges, u)
    ensures v in Universe(edges, src)
  {}

  lemma {:induction false} PushOne(edges: Edges, src: int, dst: int, dist: map<int, nat>, frontier: set<(nat, int)>,
                                   d: nat, u: int, v: int)
    requires Searching(edges, src, dst, dist, frontier)
    requires AllExpanded(edges, dist, frontier + {(d, u)})
    requires Layered(dist, frontier, d)
    requires u in dist && dist[u] == d && v in Succ(edges, u) && v !in dist
    ensures Searching(edges, src, dst, dist[v := d + 1], frontier + {(d + 1, v)})
    ensures AllExpanded(edges, dist[v := d + 1], frontier + {(d + 1, v)} + {(d, u)})
    ensures Layered(dist[v := d + 1], frontier + {(d + 1, v)}, d)
  {
    assert Walk(edges, src, v, d + 1);
    KeepsExpanded(edges, dist, frontier, d, u, v);
  }

  lemma {:induction false} DoneExpanding(edges: Edges, dist: map<int, nat>, frontier: set<(nat, int)>, d: nat, u: int)
    requires AllExpanded(edges, dist, frontier + {(d, u)})
    requires u in dist && forall v <- Succ(edges, u) :: v in dist && dist[v] <= d + 1
    requires dist[u] == d
    ensures AllExpanded(edges, dist, frontier)
  {}

  /** Some element: a set is iterated in no particular order. */
  method Pick<T>(s: set<T>) returns (x: T)
    requires s != {}
    ensures x in s
  {
    x :| x in s;
  }

  lemma {:induction false} KeepsExpanded(edges: Edges, dist: map<int, nat>, frontier: set<(nat, int)>, d: nat, u: int,
                                         v: int)
    requires AllExpanded(edges, dist, frontier + {(d, u)}) && v !in dist
    ensures AllExpanded(edges, dist[v := d + 1], frontier + {(d + 1, v)} + {(d, u)})
  {
    var dist', frontier' := dist[v := d + 1], frontier + {(d + 1, v)} + {(d, u)};
    forall x | x in dist'
      ensures (dist'[x], x) in frontier' || Expanded(edges, dist', x)
    {
      if x != v && (dist[x], x) !in frontier + {(d, u)} {
        assert Expanded(edges, dist, x);
      }
    }
  }
}
