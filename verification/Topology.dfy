/** Undirected graphs over node names, and what it means to be connected in them. */
module Graphs {

  /** A link of the source topology; a missing endpoint is the empty name. */
  datatype Link = Link(from: string, to: string)

  type Adjacency = map<string, set<string>>

  function Neighbors(adj: Adjacency, n: string): set<string> {
    if n in adj then adj[n] else {}
  }

  /** Some usable link joins a and b. */
  ghost predicate Linked(links: seq<Link>, a: string, b: string) {
    && a != "" && b != ""
    && (Link(a, b) in links || Link(b, a) in links)
  }

  /** `adj` is exactly the relation the links describe. */
  ghost predicate Describes(adj: Adjacency, links: seq<Link>) {
    forall a, b {:trigger b in Neighbors(adj, a)} :: b in Neighbors(adj, a) <==> Linked(links, a, b)
  }

  ghost predicate Symmetric(adj: Adjacency) {
    forall a, b {:trigger b in Neighbors(adj, a)} :: b in Neighbors(adj, a) <==> a in Neighbors(adj, b)
  }

  ghost predicate IsPath(names: set<string>, adj: Adjacency, p: seq<string>) {
    && p != []
    && (forall i | 0 <= i < |p| :: p[i] in names)
    && (forall i | 0 <= i < |p| - 1 :: p[i + 1] in Neighbors(adj, p[i]))
  }

  ghost predicate PathFrom(names: set<string>, adj: Adjacency, a: string, b: string, p: seq<string>) {
    IsPath(names, adj, p) && p[0] == a && p[|p| - 1] == b
  }

  /** a and b are joined by a path that stays within `names`. */
  ghost predicate Connected(names: set<string>, adj: Adjacency, a: string, b: string) {
    exists p :: PathFrom(names, adj, a, b, p)
  }

  ghost predicate ConnectedSet(s: set<string>, adj: Adjacency) {
    forall a, b | a in s && b in s :: Connected(s, adj, a, b)
  }

  ghost predicate Closed(s: set<string>, names: set<string>, adj: Adjacency) {
    forall a, b {:trigger b in Neighbors(adj, a)} | a in s && b in Neighbors(adj, a) && b in names :: b in s
  }

  lemma {:induction false} ConnectedRefl(names: set<string>, adj: Adjacency, a: string)
    requires a in names
    ensures Connected(names, adj, a, a)
  {
    assert PathFrom(names, adj, a, a, [a]);
  }

  lemma {:induction false} ConnectedStep(names: set<string>, adj: Adjacency, a: string, b: string, c: string)
    requires Connected(names, adj, a, b) && c in Neighbors(adj, b) && c in names
    ensures Connected(names, adj, a, c)
  {
    var p :| PathFrom(names, adj, a, b, p);
    assert PathFrom(names, adj, a, c, p + [c]);
  }

  lemma {:induction false} ConnectedTrans(names: set<string>, adj: Adjacency, a: string, b: string, c: string)
    requires Connected(names, adj, a, b) && Connected(names, adj, b, c)
    ensures Connected(names, adj, a, c)
  {
    var p :| PathFrom(names, adj, a, b, p);
    var q :| PathFrom(names, adj, b, c, q);
    var r := p + q[1..];
    forall i | 0 <= i < |r| - 1
      ensures r[i + 1] in Neighbors(adj, r[i])
    {
      if i >= |p| - 1 {
        assert r[i + 1] == q[i + 1 - |p| + 1];
        assert r[i] == q[i - |p| + 1];
      }
    }
    assert PathFrom(names, adj, a, c, r);
  }

  lemma {:induction false} ConnectedSym(names: set<string>, adj: Adjacency, a: string, b: string)
    requires Symmetric(adj) && Connected(names, adj, a, b)
    ensures Connected(names, adj, b, a)
  {
    var p :| PathFrom(names, adj, a, b, p);
    var q := seq(|p|, i requires 0 <= i < |p| => p[|p| - 1 - i]);
    forall i | 0 <= i < |q| - 1
      ensures q[i + 1] in Neighbors(adj, q[i])
    {
      var j := |p| - 2 - i;
      assert p[j + 1] in Neighbors(adj, p[j]);
    }
    assert PathFrom(names, adj, b, a, q);
  }

  /** A path that starts in a set closed within `names` never leaves it. */
  lemma {:induction false} ClosedTraps(s: set<string>, names: set<string>, adj: Adjacency, p: seq<string>, i: nat)
    requires Closed(s, names, adj) && IsPath(names, adj, p) && p[0] in s && i < |p|
    ensures p[i] in s
  {
    if i != 0 {
      ClosedTraps(s, names, adj, p, i - 1);
      assert p[i - 1 + 1] in Neighbors(adj, p[i - 1]);
    }
  }

  lemma {:induction false} ConnectedStaysClosed(s: set<string>, names: set<string>, adj: Adjacency, a: string,
                                                b: string)
    requires Closed(s, names, adj) && Connected(names, adj, a, b) && a in s
    ensures b in s && Connected(s, adj, a, b)
  {
    var p :| PathFrom(names, adj, a, b, p);
    forall i | 0 <= i < |p|
      ensures p[i] in s
    {
      ClosedTraps(s, names, adj, p, i);
    }
    assert PathFrom(s, adj, a, b, p);
  }

  lemma {:induction false} ConnectedWiden(s: set<string>, names: set<string>, adj: Adjacency, a: string, b: string)
    requires s <= names && Connected(s, adj, a, b)
    ensures Connected(names, adj, a, b)
  {
    var p :| PathFrom(s, adj, a, b, p);
    assert PathFrom(names, adj, a, b, p);
  }

  /** Only the neighbors within the set matter for its paths. */
  lemma {:induction false} ConnectedTransfer(s: set<string>, adj: Adjacency, adj': Adjacency, a: string, b: string)
    requires forall x, y | x in s && y in s && y in Neighbors(adj, x) :: y in Neighbors(adj', x)
    requires Connected(s, adj, a, b)
    ensures Connected(s, adj', a, b)
  {
    var p :| PathFrom(s, adj, a, b, p);
    forall i | 0 <= i < |p| - 1
      ensures p[i + 1] in Neighbors(adj', p[i])
    {
      assert p[i + 1] in Neighbors(adj, p[i]);
    }
    assert PathFrom(s, adj', a, b, p);
  }

  // ----- growing a connected set ------------------------------------------------------

  /** Names outside `selected` that touch it. */
  function Frontier(names: set<string>, adj: Adjacency, selected: set<string>): set<string> {
    set n | n in names && n !in selected && Neighbors(adj, n) * selected != {}
  }

  function Elems(s: seq<string>): set<string> { set n | n in s }

  /** Every name after the first touches an earlier one. */
  ghost predicate Grown(adj: Adjacency, s: seq<string>) {
    forall k | 0 < k < |s| :: Neighbors(adj, s[k]) * Elems(s[..k]) != {}
  }

  ghost predicate Distinct(s: seq<string>) {
    forall i, j | 0 <= i < j < |s| :: s[i] != s[j]
  }

  lemma {:induction false} ElemsExtend(s: seq<string>, n: string)
    ensures Elems(s + [n]) == Elems(s) + {n}
  {}

  lemma {:induction false} DistinctSize(s: seq<string>)
    requires Distinct(s)
    ensures |Elems(s)| == |s|
  {
    if s == [] {
      assert Elems(s) == {};
    } else {
      var n := |s| - 1;
      DistinctSize(s[..n]);
      assert s == s[..n] + [s[n]];
      ElemsExtend(s[..n], s[n]);
    }
  }

  lemma {:induction false} GrownExtend(adj: Adjacency, s: seq<string>, n: string)
    requires Grown(adj, s) && (s == [] || Neighbors(adj, n) * Elems(s) != {})
    ensures Grown(adj, s + [n])
  {
    forall k | 0 < k < |s + [n]|
      ensures Neighbors(adj, (s + [n])[k]) * Elems((s + [n])[..k]) != {}
    {
      assert (s + [n])[..k] == s[..k];
      assert s[..|s|] == s;
    }
  }

  /** A grown sequence is connected within itself. */
  lemma {:induction false} GrownReaches(adj: Adjacency, s: seq<string>, k: nat)
    requires Symmetric(adj) && Grown(adj, s) && k < |s|
    ensures Connected(Elems(s), adj, s[0], s[k])
    decreases k
  {
    if k == 0 {
      ConnectedRefl(Elems(s), adj, s[0]);
    } else {
      var m :| m in Neighbors(adj, s[k]) * Elems(s[..k]);
      var j :| 0 <= j < k && s[j] == m;
      GrownReaches(adj, s, j);
      assert s[k] in Neighbors(adj, m);
      ConnectedStep(Elems(s), adj, s[0], m, s[k]);
    }
  }

  lemma {:induction false} GrownConnected(adj: Adjacency, s: seq<string>)
    requires Symmetric(adj) && Grown(adj, s)
    ensures ConnectedSet(Elems(s), adj)
  {
    forall a, b | a in Elems(s) && b in Elems(s)
      ensures Connected(Elems(s), adj, a, b)
    {
      var i :| 0 <= i < |s| && s[i] == a;
      var j :| 0 <= j < |s| && s[j] == b;
      GrownReaches(adj, s, i);
      GrownReaches(adj, s, j);
      ConnectedSym(Elems(s), adj, s[0], a);
      ConnectedTrans(Elems(s), adj, a, s[0], b);
    }
  }

  lemma {:induction false} OnFrontier(names: set<string>, adj: Adjacency, selected: set<string>, x: string, y: string)
    requires Symmetric(adj) && x in selected && y in names && y !in selected && y in Neighbors(adj, x)
    ensures y in Frontier(names, adj, selected)
  {
    assert x in Neighbors(adj, y) * selected;
  }

  /** A connected set that is only partly selected has a frontier. */
  lemma {:induction false} FrontierExists(names: set<string>, adj: Adjacency, selected: set<string>)
    requires Symmetric(adj) && ConnectedSet(names, adj)
    requires selected * names != {} && !(names <= selected)
    ensures Frontier(names, adj, selected) != {}
  {
    var a :| a in selected * names;
    var b :| b in names && b !in selected;
    assert Connected(names, adj, a, b);
    var p :| PathFrom(names, adj, a, b, p);
    if Frontier(names, adj, selected) == {} {
      forall x, y | x in selected * names && y in Neighbors(adj, x) && y in names
        ensures y in selected * names
      {
        if y !in selected {
          OnFrontier(names, adj, selected, x, y);
          assert false;
        }
      }
      ClosedTraps(selected * names, names, adj, p, |p| - 1);
      assert false;
    }
  }
}

/** Choosing by a key, as Python's max and sorted do: a total order on names breaks ties. */
module NameOrder {

  predicate Leq(a: string, b: string) {
    a == [] || (b != [] && (a[0] < b[0] || (a[0] == b[0] && Leq(a[1..], b[1..]))))
  }

  lemma {:induction false} LeqTotal(a: string, b: string)
    ensures Leq(a, b) || Leq(b, a)
  {
    if a != [] && b != [] && a[0] == b[0] {
      LeqTotal(a[1..], b[1..]);
    }
  }

  lemma {:induction false} LeqTrans(a: string, b: string, c: string)
    requires Leq(a, b) && Leq(b, c)
    ensures Leq(a, c)
  {
    if a != [] && a[0] == b[0] && b[0] == c[0] {
      LeqTrans(a[1..], b[1..], c[1..]);
    }
  }

  /** Where two names first differ, the smaller character comes first, and a prefix comes before the rest. */
  lemma {:induction false} LeqIff(a: string, b: string)
    ensures Leq(a, b)
       <==> a <= b || exists k: nat :: k < |a| && k < |b| && a[..k] == b[..k] && a[k] < b[k]
  {
    if a != [] && b != [] && a[0] == b[0] {
      LeqIff(a[1..], b[1..]);
      assert a <= b <==> a[1..] <= b[1..] by {
        assert a == [a[0]] + a[1..] && b == [b[0]] + b[1..];
      }
      if k: nat :| k < |a| && k < |b| && a[..k] == b[..k] && a[k] < b[k] {
        assert a[1..][..k - 1] == a[..k][1..] == b[..k][1..] == b[1..][..k - 1];
        assert a[1..][k - 1] < b[1..][k - 1];
      }
      if k: nat :| k < |a[1..]| && k < |b[1..]| && a[1..][..k] == b[1..][..k] && a[1..][k] < b[1..][k] {
        assert a[..k + 1] == [a[0]] + a[1..][..k] == [b[0]] + b[1..][..k] == b[..k + 1];
        assert a[k + 1] < b[k + 1];
      }
    } else if a != [] && b != [] && a[0] < b[0] {
      assert a[..0] == b[..0];
    }
  }

  /** Lexicographic order on a pair of counts, then the name. */
  predicate AtMost(key: string -> (int, int), x: string, y: string) {
    var (kx, ky) := (key(x), key(y));
    kx.0 < ky.0 || (kx.0 == ky.0 && (kx.1 < ky.1 || (kx.1 == ky.1 && Leq(x, y))))
  }

  lemma {:induction false} AtMostTotal(key: string -> (int, int), x: string, y: string)
    ensures AtMost(key, x, y) || AtMost(key, y, x)
  {
    LeqTotal(x, y);
  }

  lemma {:induction false} AtMostTrans(key: string -> (int, int), x: string, y: string, z: string)
    requires AtMost(key, x, y) && AtMost(key, y, z)
    ensures AtMost(key, x, z)
  {
    if Leq(x, y) && Leq(y, z) {
      LeqTrans(x, y, z);
    }
  }

  ghost predicate IsMax(s: set<string>, key: string -> (int, int), m: string) {
    m in s && forall x | x in s :: AtMost(key, x, m)
  }

  lemma {:induction false} MaxExists(s: set<string>, key: string -> (int, int)) returns (m: string)
    requires s != {}
    ensures IsMax(s, key, m)
    decreases |s|
  {
    m :| m in s;
    var rest := s - {m};
    AtMostTotal(key, m, m);
    if rest != {} {
      var n := MaxExists(rest, key);
      AtMostTotal(key, m, n);
      if AtMost(key, m, n) {
        m := n;
      } else {
        forall x | x in rest
          ensures AtMost(key, x, m)
        {
          AtMostTrans(key, x, n, m);
        }
      }
    }
  }

  method MaxBy(s: set<string>, key: string -> (int, int)) returns (m: string)
    requires s != {}
    ensures IsMax(s, key, m)
  {
    ghost var w := MaxExists(s, key);
    m :| m in s && forall x | x in s :: AtMost(key, x, m);
  }

  ghost predicate IsLeast(s: set<string>, m: string) {
    m in s && forall x | x in s :: Leq(m, x)
  }

  lemma {:induction false} LeastExists(s: set<string>) returns (m: string)
    requires s != {}
    ensures IsLeast(s, m)
    decreases |s|
  {
    m :| m in s;
    LeqTotal(m, m);
    if s - {m} != {} {
      var n := LeastExists(s - {m});
      LeqTotal(m, n);
      if Leq(n, m) {
        m := n;
      } else {
        forall x | x in s - {m}
          ensures Leq(m, x)
        {
          LeqTrans(m, n, x);
        }
      }
    }
  }

  /** The next name in sorted order. */
  method Least(s: set<string>) returns (m: string)
    requires s != {}
    ensures IsLeast(s, m)
  {
    ghost var w := LeastExists(s);
    m :| m in s && forall x | x in s :: Leq(m, x);
  }
}

/** The scenario generator: components, growth of the node subset, and the connectivity guard. */
module LifecycleGenerator {
  import opened Graphs
  import opened NameOrder

  method BuildAdjacency(links: seq<Link>) returns (adj: Adjacency)
    ensures Describes(adj, links)
    ensures Symmetric(adj)
  {
    adj := map[];
    for i := 0 to |links|
      invariant Describes(adj, links[..i])
    {
      var a, b := links[i].from, links[i].to;
      assert links[..i + 1] == links[..i] + [links[i]];
      DescribesOneMore(adj, links[..i], links[i]);
      if a == "" || b == "" {
        continue;
      }
      adj := adj[a := Neighbors(adj, a) + {b}];
      adj := adj[b := Neighbors(adj, b) + {a}];
    }
    assert links[..|links|] == links;
    DescribesSymmetric(adj, links);
  }

  lemma {:induction false} DescribesOneMore(adj: Adjacency, links: seq<Link>, l: Link)
    requires Describes(adj, links)
    ensures var adj1 := adj[l.from := Neighbors(adj, l.from) + {l.to}];
            var adj2 := adj1[l.to := Neighbors(adj1, l.to) + {l.from}];
            Describes(if l.from == "" || l.to == "" then adj else adj2, links + [l])
  {
    var adj1 := adj[l.from := Neighbors(adj, l.from) + {l.to}];
    var adj2 := adj1[l.to := Neighbors(adj1, l.to) + {l.from}];
    var adj' := if l.from == "" || l.to == "" then adj else adj2;
    forall a, b
      ensures b in Neighbors(adj', a) <==> Linked(links + [l], a, b)
    {
      assert b in Neighbors(adj, a) <==> Linked(links, a, b);
      assert Linked(links + [l], a, b) <==>
        Linked(links, a, b) || (a != "" && b != "" && (l == Link(a, b) || l == Link(b, a)));
    }
  }

  lemma {:induction false} DescribesSymmetric(adj: Adjacency, links: seq<Link>)
    requires Describes(adj, links)
    ensures Symmetric(adj)
  {
    forall a, b
      ensures b in Neighbors(adj, a) <==> a in Neighbors(adj, b)
    {
      assert b in Neighbors(adj, a) <==> Linked(links, a, b);
      assert a in Neighbors(adj, b) <==> Linked(links, b, a);
    }
  }

  /** `comp` is the set of names joined to any one of its members. */
  ghost predicate IsComponent(comp: set<string>, names: set<string>, adj: Adjacency) {
    && comp != {} && comp <= names
    && (forall a, b | a in comp && b in names :: b in comp <==> Connected(names, adj, a, b))
  }

  ghost predicate PairwiseDisjoint(comps: seq<set<string>>) {
    forall i, j | 0 <= i < j < |comps| :: comps[i] !! comps[j]
  }

  /** Each name of `names` is in exactly one of the sets, and each set is a component. */
  ghost predicate Partition(comps: seq<set<string>>, names: set<string>, adj: Adjacency) {
    && PairwiseDisjoint(comps)
    && (forall c | c in comps :: IsComponent(c, names, adj))
    && (forall n | n in names :: Covers(comps, n))
  }

  ghost predicate Covers(comps: seq<set<string>>, n: string) {
    exists i :: 0 <= i < |comps| && n in comps[i]
  }

  /** `comp` has been visited and `pending` is still to visit in the search from `name`. */
  ghost predicate Searching(names: set<string>, adj: Adjacency, seen0: set<string>, name: string,
                            comp: set<string>, pending: set<string>, seen: set<string>)
  {
    && seen <= names && seen == seen0 + comp + pending
    && (comp + pending) !! seen0
    && name in comp + pending
    && (forall x | x in comp + pending :: Connected(names, adj, name, x))
  }

  /** Every neighbor of a visited name has been seen, except the neighbors of `cur` in `todo`. */
  ghost predicate Covered(names: set<string>, adj: Adjacency, comp: set<string>, seen: set<string>,
                          cur: string, todo: set<string>)
  {
    forall x, y {:trigger y in Neighbors(adj, x)} |
      x in comp && y in Neighbors(adj, x) && y in names :: y in seen || (x == cur && y in todo)
  }

  /** The depth-first search from `name`: everything reachable that was not seen before. */
  method Explore(names: set<string>, adj: Adjacency, seen0: set<string>, name: string)
    returns (comp: set<string>, seen: set<string>)
    requires Symmetric(adj)
    requires name in names && name !in seen0 && seen0 <= names && Closed(seen0, names, adj)
    ensures IsComponent(comp, names, adj)
    ensures comp !! seen0 && seen == seen0 + comp && Closed(seen, names, adj)
    ensures name in comp
  {
    var stack := [name];
    seen := seen0 + {name};
    comp := {};
    ConnectedRefl(names, adj, name);
    while stack != []
      invariant Searching(names, adj, seen0, name, comp, Elems(stack), seen)
      invariant Covered(names, adj, comp, seen, name, {})
      decreases names - seen, |stack|
    {
      var cur := stack[|stack| - 1];
      ghost var seenBefore, before := seen, stack;
      stack := stack[..|stack| - 1];
      assert before == stack + [cur];
      ElemsExtend(stack, cur);
      comp := comp + {cur};
      stack, seen := PushNeighbors(names, adj, seen0, name, comp, stack, seen, cur);
    }
    SearchDone(names, adj, seen0, name, comp, seen);
  }

  /** Pushing an unseen neighbor of a visited name keeps the search what it is. */
  lemma {:induction false} SearchPush(names: set<string>, adj: Adjacency, seen0: set<string>, name: string,
                                      comp: set<string>, stack: seq<string>, seen: set<string>,
                                      cur: string, nxt: string)
    requires Searching(names, adj, seen0, name, comp, Elems(stack), seen) && cur in comp
    requires nxt in Neighbors(adj, cur) && nxt in names && nxt !in seen
    ensures Searching(names, adj, seen0, name, comp, Elems(stack + [nxt]), seen + {nxt})
    ensures seen <= names
  {
    hide Connected, Neighbors;
    ConnectedStep(names, adj, name, cur, nxt);
    ElemsExtend(stack, nxt);
  }

  /** The inner loop: push every neighbor of `cur` that has not been seen. */
  method PushNeighbors(names: set<string>, adj: Adjacency, ghost seen0: set<string>, ghost name: string,
                       ghost comp: set<string>, stack0: seq<string>, seenBefore: set<string>, cur: string)
    returns (stack: seq<string>, seen: set<string>)
    requires cur in comp
    requires Searching(names, adj, seen0, name, comp, Elems(stack0), seenBefore)
    requires Covered(names, adj, comp, seenBefore, cur, Neighbors(adj, cur))
    ensures Searching(names, adj, seen0, name, comp, Elems(stack), seen)
    ensures Covered(names, adj, comp, seen, cur, {})
    ensures seenBefore <= seen && (stack == stack0 || names - seen < names - seenBefore)
  {
    hide Searching, Neighbors;
    stack, seen := stack0, seenBefore;
    var todo := Neighbors(adj, cur);
    while todo != {}
      invariant todo <= Neighbors(adj, cur)
      invariant Searching(names, adj, seen0, name, comp, Elems(stack), seen)
      invariant Covered(names, adj, comp, seen, cur, todo)
      invariant seenBefore <= seen && (stack == stack0 || names - seen < names - seenBefore)
      decreases |todo|
    {
      var nxt :| nxt in todo;
      todo := todo - {nxt};
      if nxt in names && nxt !in seen {
        SearchPush(names, adj, seen0, name, comp, stack, seen, cur, nxt);
        seen := seen + {nxt};
        stack := stack + [nxt];
        assert nxt in names - seenBefore && nxt !in names - seen;
      }
    }
  }

  lemma {:induction false} NoWayBack(s: set<string>, names: set<string>, adj: Adjacency, x: string, y: string)
    requires Symmetric(adj) && Closed(s, names, adj)
    requires y in s && x in names && y in Neighbors(adj, x)
    ensures x in s
  {
    assert x in Neighbors(adj, y);
  }

  lemma {:induction false} SearchDone(names: set<string>, adj: Adjacency, seen0: set<string>, name: string,
                                      comp: set<string>, seen: set<string>)
    requires Symmetric(adj) && seen0 <= names && Closed(seen0, names, adj)
    requires Searching(names, adj, seen0, name, comp, {}, seen)
    requires Covered(names, adj, comp, seen, name, {})
    ensures IsComponent(comp, names, adj) && Closed(seen, names, adj)
  {
    forall x, y {:trigger y in Neighbors(adj, x)} | x in comp && y in Neighbors(adj, x) && y in names
      ensures y in comp
    {
      if y in seen0 {
        NoWayBack(seen0, names, adj, x, y);
        assert false;
      }
    }
    assert Closed(comp, names, adj);
    forall a, b | a in comp && b in names
      ensures b in comp <==> Connected(names, adj, a, b)
    {
      if b in comp {
        ConnectedSym(names, adj, name, a);
        ConnectedTrans(names, adj, a, name, b);
      }
      if Connected(names, adj, a, b) {
        ConnectedStaysClosed(comp, names, adj, a, b);
      }
    }
  }

  // ----- the order of the components -----------------------------------------------------

  ghost function DegreeSum(adj: Adjacency, c: set<string>): nat
    decreases |c|
  {
    if c == {} then 0
    else
      var n :| n in c;
      |Neighbors(adj, n)| + DegreeSum(adj, c - {n})
  }

  lemma {:induction false} DegreeSumRemove(adj: Adjacency, c: set<string>, n: string)
    requires n in c
    ensures DegreeSum(adj, c) == |Neighbors(adj, n)| + DegreeSum(adj, c - {n})
    decreases |c|
  {
    var m :| m in c && DegreeSum(adj, c) == |Neighbors(adj, m)| + DegreeSum(adj, c - {m});
    if m != n {
      DegreeSumRemove(adj, c - {m}, n);
      DegreeSumRemove(adj, c - {n}, m);
      assert c - {m} - {n} == c - {n} - {m};
    }
  }

  /** The link ends of a set: each of its names with each of that name's neighbors. */
  ghost function LinkEnds(adj: Adjacency, c: set<string>): set<(string, string)> {
    set n, m | n in c && m in Neighbors(adj, n) :: (n, m)
  }

  ghost function Paired(n: string, s: set<string>): set<(string, string)> { set m | m in s :: (n, m) }

  lemma {:induction false} PairedSize(n: string, s: set<string>)
    ensures |Paired(n, s)| == |s|
    decreases |s|
  {
    if s == {} {
      assert Paired(n, s) == {};
    } else {
      var m :| m in s;
      PairedSize(n, s - {m});
      assert Paired(n, s) == Paired(n, s - {m}) + {(n, m)};
    }
  }

  /** The degree sum counts link ends. */
  lemma {:induction false} DegreeSumCounts(adj: Adjacency, c: set<string>)
    ensures DegreeSum(adj, c) == |LinkEnds(adj, c)|
    decreases |c|
  {
    hide Neighbors;
    if c == {} {
      assert LinkEnds(adj, c) == {};
    } else {
      var n :| n in c;
      DegreeSumRemove(adj, c, n);
      DegreeSumCounts(adj, c - {n});
      PairedSize(n, Neighbors(adj, n));
      var (rest, mine) := (LinkEnds(adj, c - {n}), Paired(n, Neighbors(adj, n)));
      assert LinkEnds(adj, c) == rest + mine;
      assert rest !! mine;
    }
  }

  /** Size first, then total degree. */
  ghost function Key(adj: Adjacency, c: set<string>): (int, int) { (|c|, DegreeSum(adj, c)) }

  method KeyOf(adj: Adjacency, c: set<string>) returns (key: (int, int))
    ensures key == Key(adj, c)
  {
    var sum, rest := 0, c;
    while rest != {}
      invariant rest <= c && sum + DegreeSum(adj, rest) == DegreeSum(adj, c)
      decreases |rest|
    {
      var n :| n in rest;
      DegreeSumRemove(adj, rest, n);
      sum, rest := sum + |Neighbors(adj, n)|, rest - {n};
    }
    key := (|c|, sum);
  }

  predicate KeyLess(a: (int, int), b: (int, int)) {
    a.0 < b.0 || (a.0 == b.0 && a.1 < b.1)
  }

  ghost predicate Descending(adj: Adjacency, comps: seq<set<string>>) {
    forall i, j | 0 <= i < j < |comps| :: !KeyLess(Key(adj, comps[i]), Key(adj, comps[j]))
  }

  /** One set has a name before all names of the other. */
  ghost predicate NamedFirst(a: set<string>, b: set<string>) { exists n :: n in a && NamedBefore(n, b) }

  ghost predicate NamedBefore(n: string, s: set<string>) { forall m | m in s :: Leq(n, m) }

  /** Sets of equal key stay in the order of their first names. */
  ghost predicate Stable(adj: Adjacency, comps: seq<set<string>>) {
    forall i, j | 0 <= i < j < |comps| :: Key(adj, comps[i]) == Key(adj, comps[j]) ==> NamedFirst(comps[i], comps[j])
  }

  ghost predicate ByName(comps: seq<set<string>>) {
    forall i, j | 0 <= i < j < |comps| :: NamedFirst(comps[i], comps[j])
  }

  lemma {:induction false} InsertStable(adj: Adjacency, s: seq<set<string>>, c: set<string>, k: nat)
    requires k <= |s| && Stable(adj, s)
    requires forall j | 0 <= j < |s| :: NamedFirst(s[j], c)
    requires forall j | k <= j < |s| :: KeyLess(Key(adj, s[j]), Key(adj, c))
    ensures Stable(adj, Inserted(s, c, k))
  {
    var t := Inserted(s, c, k);
    hide Inserted, Key, NamedFirst;
    forall i, j | 0 <= i < j < |t| && Key(adj, t[i]) == Key(adj, t[j])
      ensures NamedFirst(t[i], t[j])
    {
      if i != k && j != k {
        var (x, y) := (if i < k then i else i - 1, if j < k then j else j - 1);
        assert t[i] == s[x] && t[j] == s[y];
      }
    }
  }

  /** What the order of the components is, by sizes, link ends and names. */
  lemma {:induction false} OrderMeans(adj: Adjacency, comps: seq<set<string>>, i: nat, j: nat)
    requires Descending(adj, comps) && Stable(adj, comps) && i < j < |comps|
    ensures |comps[j]| <= |comps[i]|
    ensures |comps[j]| == |comps[i]| ==> |LinkEnds(adj, comps[j])| <= |LinkEnds(adj, comps[i])|
    ensures |comps[j]| == |comps[i]| && |LinkEnds(adj, comps[j])| == |LinkEnds(adj, comps[i])|
            ==> exists n :: n in comps[i] && forall m | m in comps[j] :: Leq(n, m)
  {
    hide LinkEnds, DegreeSum, Leq;
    DegreeSumCounts(adj, comps[i]);
    DegreeSumCounts(adj, comps[j]);
    assert !KeyLess(Key(adj, comps[i]), Key(adj, comps[j]));
    if Key(adj, comps[i]) == Key(adj, comps[j]) {
      assert NamedFirst(comps[i], comps[j]);
      var n :| n in comps[i] && NamedBefore(n, comps[j]);
    }
  }

  /** Stable sort by decreasing key. */
  method SortDescending(adj: Adjacency, comps: seq<set<string>>) returns (sorted: seq<set<string>>)
    requires PairwiseDisjoint(comps) && ByName(comps)
    ensures PairwiseDisjoint(sorted) && |sorted| == |comps|
    ensures forall c :: c in sorted <==> c in comps
    ensures Descending(adj, sorted) && Stable(adj, sorted)
  {
    hide NamedFirst, Key;
    sorted := [];
    for i := 0 to |comps|
      invariant PairwiseDisjoint(sorted) && |sorted| == i
      invariant forall c :: c in sorted <==> c in comps[..i]
      invariant Descending(adj, sorted) && Stable(adj, sorted)
    {
      var c := comps[i];
      var key := KeyOf(adj, c);
      var k := |sorted|;
      while k > 0
        invariant 0 <= k <= |sorted|
        invariant forall j | k <= j < |sorted| :: KeyLess(Key(adj, sorted[j]), key)
      {
        var other := KeyOf(adj, sorted[k - 1]);
        if !KeyLess(other, key) {
          break;
        }
        k := k - 1;
      }
      forall j | 0 <= j < |sorted|
        ensures sorted[j] !! c && NamedFirst(sorted[j], c)
      {
        assert sorted[j] in comps[..i];
      }
      assert k > 0 ==> !KeyLess(Key(adj, sorted[k - 1]), key);
      InsertDisjoint(sorted, c, k);
      InsertDescending(adj, sorted, c, k);
      InsertStable(adj, sorted, c, k);
      InsertElements(sorted, c, k);
      sorted := Inserted(sorted, c, k);
      assert comps[..i + 1] == comps[..i] + [c];
    }
    assert comps[..|comps|] == comps;
  }

  function Inserted(s: seq<set<string>>, c: set<string>, k: nat): (t: seq<set<string>>)
    requires k <= |s|
    ensures |t| == |s| + 1
    ensures forall j | 0 <= j < |t| :: t[j] == if j < k then s[j] else if j == k then c else s[j - 1]
  {
    s[..k] + [c] + s[k..]
  }

  lemma {:induction false} InsertDisjoint(s: seq<set<string>>, c: set<string>, k: nat)
    requires k <= |s| && PairwiseDisjoint(s) && forall j | 0 <= j < |s| :: s[j] !! c
    ensures PairwiseDisjoint(Inserted(s, c, k))
  {
    var t := Inserted(s, c, k);
    hide Inserted;
    forall i, j | 0 <= i < j < |t|
      ensures t[i] !! t[j]
    {
    }
  }

  lemma {:induction false} InsertDescending(adj: Adjacency, s: seq<set<string>>, c: set<string>, k: nat)
    requires k <= |s| && Descending(adj, s)
    requires forall j | k <= j < |s| :: KeyLess(Key(adj, s[j]), Key(adj, c))
    requires k > 0 ==> !KeyLess(Key(adj, s[k - 1]), Key(adj, c))
    ensures Descending(adj, Inserted(s, c, k))
  {
    var t := Inserted(s, c, k);
    hide Inserted, Key;
    forall i, j | 0 <= i < j < |t|
      ensures !KeyLess(Key(adj, t[i]), Key(adj, t[j]))
    {
      if j == k && i < k - 1 {
        assert !KeyLess(Key(adj, s[i]), Key(adj, s[k - 1]));
      }
    }
  }

  lemma {:induction false} InsertElements(s: seq<set<string>>, c: set<string>, k: nat)
    requires k <= |s|
    ensures forall x :: x in Inserted(s, c, k) <==> x in s || x == c
  {
    assert s == s[..k] + s[k..];
  }

  /** The components found so far cover exactly the names seen. */
  ghost predicate Found(found: seq<set<string>>, seen: set<string>, names: set<string>, adj: Adjacency) {
    && PairwiseDisjoint(found)
    && (forall c | c in found :: IsComponent(c, names, adj) && c <= seen)
    && (forall n | n in seen :: Covers(found, n))
  }

  lemma {:induction false} FoundOneMore(found: seq<set<string>>, seen: set<string>, names: set<string>,
                                        adj: Adjacency, comp: set<string>)
    requires Found(found, seen, names, adj)
    requires IsComponent(comp, names, adj) && comp !! seen
    ensures Found(found + [comp], seen + comp, names, adj)
  {
    hide IsComponent;
    var more := found + [comp];
    forall n | n in seen + comp
      ensures Covers(more, n)
    {
      if n in seen {
        assert Covers(found, n);
        var i :| 0 <= i < |found| && n in found[i];
        assert more[i] == found[i];
      } else {
        assert more[|found|] == comp;
      }
    }
    forall i, j | 0 <= i < j < |more|
      ensures more[i] !! more[j]
    {
      assert found[i] in found;
    }
  }

  lemma {:induction false} FoundAll(found: seq<set<string>>, seen: set<string>, names: set<string>, adj: Adjacency,
                                    comps: seq<set<string>>)
    requires Found(found, seen, names, adj) && names <= seen
    requires PairwiseDisjoint(comps) && forall c :: c in comps <==> c in found
    ensures Partition(comps, names, adj)
  {
    hide IsComponent;
    forall n | n in names
      ensures Covers(comps, n)
    {
      assert Covers(found, n);
      var i :| 0 <= i < |found| && n in found[i];
      assert found[i] in comps;
    }
  }

  /** Every set found has a name before all names still to do. */
  ghost predicate FoundFirst(found: seq<set<string>>, todo: set<string>) {
    ByName(found) && forall c | c in found :: NamedFirst(c, todo)
  }

  lemma {:induction false} NamedFewer(a: set<string>, b: set<string>, c: set<string>)
    requires NamedFirst(a, b) && c <= b
    ensures NamedFirst(a, c)
  {
    var n :| n in a && NamedBefore(n, b);
    assert NamedBefore(n, c);
  }

  lemma {:induction false} FoundFewer(found: seq<set<string>>, todo: set<string>, fewer: set<string>)
    requires FoundFirst(found, todo) && fewer <= todo
    ensures FoundFirst(found, fewer)
  {
    hide NamedFirst;
    forall c | c in found {
      NamedFewer(c, todo, fewer);
    }
  }

  /** The next set found holds the least name left and only names that are left. */
  lemma {:induction false} FoundNext(found: seq<set<string>>, todo: set<string>, name: string, comp: set<string>)
    requires FoundFirst(found, todo) && IsLeast(todo, name) && name in comp && comp <= todo
    ensures FoundFirst(found + [comp], todo - {name})
  {
    assert NamedBefore(name, todo - {name});
    assert NamedFirst(comp, todo - {name});
    hide NamedFirst;
    forall c | c in found
      ensures NamedFirst(c, comp) && NamedFirst(c, todo - {name})
    {
      NamedFewer(c, todo, comp);
      NamedFewer(c, todo, todo - {name});
    }
    assert forall i | 0 <= i < |found| :: found[i] in found;
  }

  /**
   * The components, larger ones first, then those with more link ends, then by first name.
   */
  method ConnectedComponents(names: set<string>, adj: Adjacency) returns (comps: seq<set<string>>)
    requires Symmetric(adj)
    ensures Partition(comps, names, adj)
    ensures forall i, j | 0 <= i < j < |comps| ::
              && |comps[j]| <= |comps[i]|
              && (|comps[j]| == |comps[i]| ==> |LinkEnds(adj, comps[j])| <= |LinkEnds(adj, comps[i])|)
              && (|comps[j]| == |comps[i]| && |LinkEnds(adj, comps[j])| == |LinkEnds(adj, comps[i])| ==>
                    exists n :: n in comps[i] && forall m | m in comps[j] :: Leq(n, m))
    ensures Descending(adj, comps)
  {
    hide IsComponent, Descending, Stable, FoundFirst, IsLeast;
    NoneFound(names);
    var seen: set<string> := {};
    var found: seq<set<string>> := [];
    var todo := names;
    while todo != {}
      invariant todo <= names && seen <= names && names <= seen + todo
      invariant Closed(seen, names, adj)
      invariant Found(found, seen, names, adj) && FoundFirst(found, todo)
      decreases |todo|
    {
      var name := Least(todo);
      LeastIn(todo, name);
      if name !in seen {
        var comp, seen' := Explore(names, adj, seen, name);
        FoundOneMore(found, seen, names, adj, comp);
        FoundNext(found, todo, name, comp);
        seen, found := seen', found + [comp];
      } else {
        FoundFewer(found, todo, todo - {name});
      }
      todo := todo - {name};
    }
    FoundByName(found, todo);
    comps := SortDescending(adj, found);
    FoundAll(found, seen, names, adj, comps);
    forall i, j | 0 <= i < j < |comps| {
      OrderMeans(adj, comps, i, j);
    }
  }

  lemma {:induction false} NoneFound(todo: set<string>)
    ensures FoundFirst([], todo)
  {}

  lemma {:induction false} LeastIn(s: set<string>, m: string)
    requires IsLeast(s, m)
    ensures m in s
  {}

  lemma {:induction false} FoundByName(found: seq<set<string>>, todo: set<string>)
    requires FoundFirst(found, todo)
    ensures ByName(found)
  {}

  // ----- the largest component ---------------------------------------------------------------

  lemma {:induction false} ComponentConnected(c: set<string>, names: set<string>, adj: Adjacency)
    requires IsComponent(c, names, adj)
    ensures ConnectedSet(c, adj)
  {
    forall x, y {:trigger y in Neighbors(adj, x)} | x in c && y in Neighbors(adj, x) && y in names
      ensures y in c
    {
      ConnectedRefl(names, adj, x);
      ConnectedStep(names, adj, x, x, y);
    }
    forall a, b | a in c && b in c
      ensures Connected(c, adj, a, b)
    {
      ConnectedStaysClosed(c, names, adj, a, b);
    }
  }

  function NonIsolated(names: set<string>, adj: Adjacency): set<string> {
    set n | n in names && |Neighbors(adj, n) * names| > 0
  }

  lemma {:induction false} ConnectedPairNotIsolated(s: set<string>, names: set<string>, adj: Adjacency, a: string,
                                                    b: string)
    requires s <= names && a != b && Connected(s, adj, a, b)
    ensures a in NonIsolated(names, adj)
  {
    var p :| PathFrom(s, adj, a, b, p);
    assert p[0 + 1] in Neighbors(adj, p[0]) * names;
  }

  /** A connected set lies within one component. */
  lemma {:induction false} ConnectedInOneComponent(s: set<string>, comps: seq<set<string>>, names: set<string>,
                                                   adj: Adjacency)
    requires Partition(comps, names, adj) && s != {} && s <= names && ConnectedSet(s, adj)
    ensures exists i :: 0 <= i < |comps| && s <= comps[i]
  {
    var a :| a in s;
    assert Covers(comps, a);
    var i :| 0 <= i < |comps| && a in comps[i];
    forall b | b in s
      ensures b in comps[i]
    {
      ConnectedWiden(s, names, adj, a, b);
      assert IsComponent(comps[i], names, adj);
    }
  }

  lemma {:induction false} SubsetSize(a: set<string>, b: set<string>)
    requires a <= b
    ensures |a| <= |b|
  {
    assert b == a + (b - a);
  }

  /** Two different members put the whole of a connected set among the non-isolated names. */
  lemma {:induction false} LargeSetNotIsolated(s: set<string>, names: set<string>, adj: Adjacency)
    requires s <= names && ConnectedSet(s, adj) && |s| > 1
    ensures s <= NonIsolated(names, adj)
  {
    forall a | a in s
      ensures a in NonIsolated(names, adj)
    {
      assert |s - {a}| == |s| - 1;
      var b :| b in s - {a};
      ConnectedPairNotIsolated(s, names, adj, a, b);
    }
  }

  /**
   * A largest connected subset of the names; empty only if there are none. Of several as large, if they
   * have more than one name, one with the most link ends, and of those the one named first.
   */
  method LargestConnectedComponent(names: set<string>, adj: Adjacency) returns (best: set<string>)
    requires Symmetric(adj)
    ensures best <= names && (best == {} <==> names == {})
    ensures ConnectedSet(best, adj)
    ensures forall s | s <= names && ConnectedSet(s, adj) :: |s| <= |best|
    ensures forall s | s <= names && ConnectedSet(s, adj) && |s| == |best| > 1 && s != best ::
              && |LinkEnds(adj, s)| <= |LinkEnds(adj, best)|
              && (|LinkEnds(adj, s)| == |LinkEnds(adj, best)| ==>
                    exists n :: n in best && forall m | m in s :: Leq(n, m))
  {
    hide ConnectedSet, Descending, LinkEnds, Leq;
    var nonIsolated := NonIsolated(names, adj);
    var pool := if nonIsolated != {} then nonIsolated else names;
    var comps := ConnectedComponents(pool, adj);
    if |comps| > 0 {
      best := comps[0];
      ComponentConnected(best, pool, adj);
    } else {
      best := {};
      EmptyConnected(adj);
    }
    if names != {} {
      var n :| n in pool;
      assert Covers(comps, n);
      forall s | s <= names && ConnectedSet(s, adj)
        ensures |s| <= |best|
      {
        NoLargerSet(s, names, adj, pool, comps);
      }
      forall s | s <= names && ConnectedSet(s, adj) && |s| == |best| > 1 && s != best
        ensures |LinkEnds(adj, s)| <= |LinkEnds(adj, best)|
        ensures |LinkEnds(adj, s)| == |LinkEnds(adj, best)| ==> exists n :: n in best && forall m | m in s :: Leq(n, m)
      {
        var i := TiedSet(s, names, adj, pool, comps);
        assert |comps[i]| == |comps[0]|;
      }
    } else {
      forall s: set<string> | s <= names
        ensures |s| <= |best|
      {
        assert s == {};
      }
    }
  }

  lemma {:induction false} EmptyConnected(adj: Adjacency)
    ensures ConnectedSet({}, adj)
  {}

  /** A connected set as large as the first component is a component too. */
  lemma {:induction false} TiedSet(s: set<string>, names: set<string>, adj: Adjacency, pool: set<string>,
                                   comps: seq<set<string>>) returns (i: nat)
    requires s <= names && ConnectedSet(s, adj)
    requires pool == if NonIsolated(names, adj) != {} then NonIsolated(names, adj) else names
    requires Partition(comps, pool, adj) && comps != [] && |s| == |comps[0]| > 1
    requires forall j | 0 < j < |comps| :: |comps[j]| <= |comps[0]|
    ensures i < |comps| && comps[i] == s
  {
    LargeSetNotIsolated(s, names, adj);
    ConnectedInOneComponent(s, comps, pool, adj);
    i :| 0 <= i < |comps| && s <= comps[i];
    assert |comps[i]| <= |s|;
    SubsetEqual(s, comps[i]);
  }

  lemma {:induction false} SubsetEqual(a: set<string>, b: set<string>)
    requires a <= b && |b| <= |a|
    ensures a == b
  {
    assert b == a + (b - a);
  }

  lemma {:induction false} NoLargerSet(s: set<string>, names: set<string>, adj: Adjacency, pool: set<string>,
                                       comps: seq<set<string>>)
    requires s <= names && ConnectedSet(s, adj)
    requires pool == if NonIsolated(names, adj) != {} then NonIsolated(names, adj) else names
    requires Partition(comps, pool, adj) && Descending(adj, comps) && comps != []
    ensures |s| <= |comps[0]|
  {
    if |s| <= 1 {
      assert comps[0] in comps;
      assert IsComponent(comps[0], pool, adj);
    } else {
      LargeSetNotIsolated(s, names, adj);
      ConnectedInOneComponent(s, comps, pool, adj);
      var i :| 0 <= i < |comps| && s <= comps[i];
      SubsetSize(s, comps[i]);
      assert i > 0 ==> !KeyLess(Key(adj, comps[0]), Key(adj, comps[i]));
    }
  }

  // ----- choosing the nodes ----------------------------------------------------------------------

  function Min(x: int, y: int): int { if x <= y then x else y }

  /** How strongly a candidate is tied to the selection, then its degree. */
  function Pull(adj: Adjacency, selected: set<string>): string -> (int, int) {
    n => (|Neighbors(adj, n) * selected|, |Neighbors(adj, n)|)
  }

  /** Different names of `names`, each after the first touching an earlier one. */
  ghost predicate Growing(names: set<string>, adj: Adjacency, s: seq<string>) {
    Distinct(s) && Elems(s) <= names && Grown(adj, s)
  }

  lemma {:induction false} GrowOne(names: set<string>, adj: Adjacency, s: seq<string>, best: string)
    requires Growing(names, adj, s)
    requires if s == [] then best in names else best in Frontier(names, adj, Elems(s))
    ensures Growing(names, adj, s + [best])
    ensures |s + [best]| <= |names|
  {
    GrownExtend(adj, s, best);
    ElemsExtend(s, best);
    assert forall i | 0 <= i < |s| :: s[i] in Elems(s);
    DistinctSize(s + [best]);
    SubsetSize(Elems(s + [best]), names);
  }

  lemma {:induction false} FrontierLeft(names: set<string>, adj: Adjacency, s: seq<string>)
    requires Symmetric(adj) && ConnectedSet(names, adj)
    requires Growing(names, adj, s) && s != [] && |s| < |names|
    ensures Frontier(names, adj, Elems(s)) != {}
  {
    DistinctSize(s);
    assert s[0] in Elems(s) * names;
    if names <= Elems(s) {
      SubsetSize(names, Elems(s));
      assert false;
    }
    FrontierExists(names, adj, Elems(s));
  }

  lemma {:induction false} NothingTouchesNothing(names: set<string>, adj: Adjacency)
    ensures Frontier(names, adj, Elems([])) == {}
  {
    assert Elems([]) == {};
  }

  /**
   * Up to `count` names of a connected set, grown from a name of highest degree so that each name
   * touches an earlier one. It stops short only when the names run out.
   */
  method ChooseInitialNodes(names: set<string>, adj: Adjacency, count: int) returns (selected: seq<string>)
    requires Symmetric(adj) && ConnectedSet(names, adj)
    ensures Growing(names, adj, selected)
    ensures |selected| == if count <= 0 then 0 else Min(count, |names|)
    ensures forall c | selected != [] && c in names ::
              && |Neighbors(adj, c)| <= |Neighbors(adj, selected[0])|
              && (|Neighbors(adj, c)| == |Neighbors(adj, selected[0])| ==> Leq(c, selected[0]))
    ensures forall k, c |
              1 <= k < |selected|
              && c in names && c !in selected[..k] && Neighbors(adj, c) * Elems(selected[..k]) != {} ::
              var mine := |Neighbors(adj, c) * Elems(selected[..k])|;
              var best := |Neighbors(adj, selected[k]) * Elems(selected[..k])|;
              && mine <= best
              && (mine == best ==> |Neighbors(adj, c)| <= |Neighbors(adj, selected[k])|)
              && (mine == best && |Neighbors(adj, c)| == |Neighbors(adj, selected[k])| ==> Leq(c, selected[k]))
    ensures Greedy(names, adj, selected, 1)
  {
    hide ConnectedSet, Growing, IsMax, Frontier, Greedy, Neighbors, Leq, Pull, Symmetric;
    NothingGreedy(names, adj, [], 1);
    EmptyGrowing(names, adj);
    if names == {} {
      return [];
    }
    var first := MaxBy(names, n => (|Neighbors(adj, n)|, 0));
    MaxIn(names, n => (|Neighbors(adj, n)|, 0), first);
    selected := [first];
    NothingGreedy(names, adj, selected, 1);
    GrowOne(names, adj, [], first);
    assert [] + [first] == [first];
    while |selected| < count && |selected| < |names|
      invariant Growing(names, adj, selected) && Greedy(names, adj, selected, 1)
      invariant |selected| >= 1 && selected[0] == first
      invariant |selected| <= |names| && (|selected| <= count || |selected| == 1)
      decreases count - |selected|
    {
      // There is always a candidate, so growth never stops early.
      FrontierLeft(names, adj, selected);
      var candidates := Frontier(names, adj, Elems(selected));
      var best := MaxBy(candidates, Pull(adj, Elems(selected)));
      MaxIn(candidates, Pull(adj, Elems(selected)), best);
      GrowOne(names, adj, selected, best);
      GreedyOne(names, adj, selected, 1, best);
      selected := selected + [best];
    }
    forall c | c in names {
      FirstMeans(names, adj, first, c);
    }
    if count <= 0 {
      selected := [];
      NothingGreedy(names, adj, selected, 1);
    }
    forall k, c | 1 <= k < |selected| && c in names && c !in selected[..k]
                  && Neighbors(adj, c) * Elems(selected[..k]) != {} {
      GreedyMeans(names, adj, selected, 1, k, c);
    }
  }

  /** From position `start` on, each name is the best candidate for the names before it. */
  ghost predicate Greedy(names: set<string>, adj: Adjacency, s: seq<string>, start: nat) {
    forall k | start <= k < |s| :: BestAt(names, adj, s, k)
  }

  ghost predicate BestAt(names: set<string>, adj: Adjacency, s: seq<string>, k: nat)
    requires k < |s|
  {
    var selected := Elems(s[..k]);
    IsMax(Frontier(names, adj, selected), Pull(adj, selected), s[k])
  }

  lemma {:induction false} GreedyOne(names: set<string>, adj: Adjacency, s: seq<string>, start: nat, best: string)
    requires Greedy(names, adj, s, start)
    requires IsMax(Frontier(names, adj, Elems(s)), Pull(adj, Elems(s)), best)
    ensures Greedy(names, adj, s + [best], start)
  {
    hide IsMax, Frontier;
    forall k | start <= k < |s + [best]|
      ensures BestAt(names, adj, s + [best], k)
    {
      if k < |s| {
        assert BestAt(names, adj, s, k);
        assert (s + [best])[..k] == s[..k];
      } else {
        assert (s + [best])[..k] == s;
      }
    }
  }

  /** What greedy means: most ties to the names before, then highest degree, then last in name order. */
  lemma {:induction false} GreedyMeans(names: set<string>, adj: Adjacency, s: seq<string>, start: nat, k: nat,
                                       c: string)
    requires Greedy(names, adj, s, start) && start <= k < |s|
    requires c in names && c !in s[..k] && Neighbors(adj, c) * Elems(s[..k]) != {}
    ensures var (mine, best) := (|Neighbors(adj, c) * Elems(s[..k])|, |Neighbors(adj, s[k]) * Elems(s[..k])|);
            && mine <= best
            && (mine == best ==> |Neighbors(adj, c)| <= |Neighbors(adj, s[k])|)
            && (mine == best && |Neighbors(adj, c)| == |Neighbors(adj, s[k])| ==> Leq(c, s[k]))
  {
    hide Neighbors, Leq;
    assert BestAt(names, adj, s, k);
    assert c in Frontier(names, adj, Elems(s[..k]));
    assert AtMost(Pull(adj, Elems(s[..k])), c, s[k]);
  }

  lemma {:induction false} FirstMeans(names: set<string>, adj: Adjacency, first: string, c: string)
    requires IsMax(names, n => (|Neighbors(adj, n)|, 0), first) && c in names
    ensures |Neighbors(adj, c)| <= |Neighbors(adj, first)|
    ensures |Neighbors(adj, c)| == |Neighbors(adj, first)| ==> Leq(c, first)
  {
    hide Neighbors, Leq;
    assert AtMost(n => (|Neighbors(adj, n)|, 0), c, first);
  }

  lemma {:induction false} NothingGreedy(names: set<string>, adj: Adjacency, s: seq<string>, start: nat)
    requires |s| <= start
    ensures Greedy(names, adj, s, start)
  {}

  lemma {:induction false} EmptyGrowing(names: set<string>, adj: Adjacency)
    ensures Growing(names, adj, [])
  {}

  lemma {:induction false} MaxIn(s: set<string>, key: string -> (int, int), m: string)
    requires IsMax(s, key, m)
    ensures m in s
  {}

  lemma {:induction false} GrowingFits(names: set<string>, adj: Adjacency, s: seq<string>)
    requires Growing(names, adj, s)
    ensures |s| <= |names|
  {
    DistinctSize(s);
    SubsetSize(Elems(s), names);
  }

  /** Up to `count` further names, each touching the selection; none if nothing is selected. */
  method ChooseJoiners(names: set<string>, adj: Adjacency, initial: seq<string>, count: int) returns (out: seq<string>)
    requires Symmetric(adj) && ConnectedSet(names, adj)
    requires Growing(names, adj, initial)
    ensures Growing(names, adj, initial + out)
    ensures var all := initial + out;
            forall k, c |
              |initial| <= k < |all|
              && c in names && c !in all[..k] && Neighbors(adj, c) * Elems(all[..k]) != {} ::
              var (mine, best) := (|Neighbors(adj, c) * Elems(all[..k])|, |Neighbors(adj, all[k]) * Elems(all[..k])|);
              && mine <= best
              && (mine == best ==> |Neighbors(adj, c)| <= |Neighbors(adj, all[k])|)
              && (mine == best && |Neighbors(adj, c)| == |Neighbors(adj, all[k])| ==> Leq(c, all[k]))
    ensures Greedy(names, adj, initial + out, |initial|)
    ensures |out| == if count <= 0 || initial == [] then 0 else Min(count, |names| - |initial|)
  {
    hide ConnectedSet, Growing, IsMax, Greedy, Leq, Pull, Symmetric;
    out := [];
    assert initial + out == initial;
    NothingGreedy(names, adj, initial, |initial|);
    GrowingFits(names, adj, initial);
    NothingTouchesNothing(names, adj);
    while |out| < count
      invariant Growing(names, adj, initial + out) && Greedy(names, adj, initial + out, |initial|)
      invariant |initial + out| <= |names| && (|out| <= count || |out| == 0) && (initial == [] ==> out == [])
      decreases count - |out|
    {
      var selected := Elems(initial + out);
      var candidates := Frontier(names, adj, selected);
      if candidates == {} {
        if initial != [] && |initial + out| < |names| {
          FrontierLeft(names, adj, initial + out);
          assert false;
        }
        break;
      }
      assert initial != [];
      var best := MaxBy(candidates, Pull(adj, selected));
      MaxIn(candidates, Pull(adj, selected), best);
      GrowOne(names, adj, initial + out, best);
      GreedyOne(names, adj, initial + out, |initial|, best);
      assert initial + (out + [best]) == initial + out + [best];
      out := out + [best];
    }
    ghost var all := initial + out;
    forall k, c | |initial| <= k < |all| && c in names && c !in all[..k] && Neighbors(adj, c) * Elems(all[..k]) != {} {
      GreedyMeans(names, adj, all, |initial|, k, c);
    }
  }

  // ----- the connectivity guard ---------------------------------------------------------------

  function KeepLinks(links: seq<Link>, selected: set<string>): seq<Link> {
    if links == [] then []
    else
      var rest := KeepLinks(links[1..], selected);
      if links[0].from in selected && links[0].to in selected then [links[0]] + rest else rest
  }

  lemma {:induction false} KeptLinks(links: seq<Link>, selected: set<string>, l: Link)
    ensures l in KeepLinks(links, selected) <==> l in links && l.from in selected && l.to in selected
  {
    if links != [] {
      KeptLinks(links[1..], selected, l);
    }
  }

  /** Dropping the links that leave the selection keeps a connected selection connected. */
  lemma {:induction false} KeepLinksConnected(links: seq<Link>, selected: set<string>, adj: Adjacency, out: Adjacency)
    requires Describes(adj, links) && Describes(out, KeepLinks(links, selected))
    requires ConnectedSet(selected, adj)
    ensures ConnectedSet(selected, out)
  {
    forall x, y | x in selected && y in selected && y in Neighbors(adj, x)
      ensures y in Neighbors(out, x)
    {
      KeptLinks(links, selected, Link(x, y));
      KeptLinks(links, selected, Link(y, x));
      assert Linked(links, x, y);
      assert Linked(KeepLinks(links, selected), x, y);
    }
    forall a, b | a in selected && b in selected
      ensures Connected(selected, out, a, b)
    {
      ConnectedTransfer(selected, adj, out, a, b);
    }
  }

  /** The links that are kept are those between two selected nodes. */
  lemma {:induction false} LinksWithin(links: seq<Link>, selected: seq<string>, out: Adjacency)
    requires Within(links, selected, out)
    ensures Describes(out, KeepLinks(links, Elems(selected)))
  {
    forall a, b
      ensures b in Neighbors(out, a) <==> Linked(KeepLinks(links, Elems(selected)), a, b)
    {
      KeptLinks(links, Elems(selected), Link(a, b));
      KeptLinks(links, Elems(selected), Link(b, a));
    }
  }

  lemma {:induction false} ComponentIsAll(comps: seq<set<string>>, selected: set<string>, adj: Adjacency, i: nat)
    requires Partition(comps, selected, adj) && ConnectedSet(selected, adj) && i < |comps|
    ensures comps[i] == selected != {}
  {
    assert comps[i] in comps && IsComponent(comps[i], selected, adj);
    var a :| a in comps[i];
    forall b | b in selected
      ensures b in comps[i]
    {
      assert Connected(selected, adj, a, b);
    }
  }

  /** The number of components of a connected selection is one, and of an empty one none. */
  lemma {:induction false} ComponentCount(comps: seq<set<string>>, selected: set<string>, adj: Adjacency)
    requires Partition(comps, selected, adj) && ConnectedSet(selected, adj)
    ensures |comps| == if selected == {} then 0 else 1
  {
    hide ConnectedSet, IsComponent;
    if selected != {} {
      var n :| n in selected;
      assert Covers(comps, n);
    }
    if |comps| > 0 {
      ComponentIsAll(comps, selected, adj, 0);
    }
    if |comps| > 1 {
      ComponentIsAll(comps, selected, adj, 1);
      assert false;
    }
  }

  /** A largest set of nodes that the links connect. */
  ghost predicate Source(names: set<string>, nodes: set<string>, adj: Adjacency) {
    && names <= nodes && ConnectedSet(names, adj)
    && forall s | s <= nodes && ConnectedSet(s, adj) :: |s| <= |names|
  }

  /**
   * From the name of highest degree on, each name has the most ties to those before it of all that have
   * any, among these the highest degree, and among these the last name.
   */
  ghost predicate ByTies(names: set<string>, adj: Adjacency, s: seq<string>) {
    && (forall c | s != [] && c in names ::
          |Neighbors(adj, c)| <= |Neighbors(adj, s[0])|
          && (|Neighbors(adj, c)| == |Neighbors(adj, s[0])| ==> Leq(c, s[0])))
    && (forall k, c | 1 <= k < |s| && c in names && c !in s[..k] && Neighbors(adj, c) * Elems(s[..k]) != {} ::
          var (mine, best) := (|Neighbors(adj, c) * Elems(s[..k])|, |Neighbors(adj, s[k]) * Elems(s[..k])|);
          && mine <= best
          && (mine == best ==> |Neighbors(adj, c)| <= |Neighbors(adj, s[k])|)
          && (mine == best && |Neighbors(adj, c)| == |Neighbors(adj, s[k])| ==> Leq(c, s[k])))
  }

  lemma {:induction false} GreedyTies(names: set<string>, adj: Adjacency, initial: seq<string>, out: seq<string>)
    requires Greedy(names, adj, initial, 1) && Greedy(names, adj, initial + out, |initial|) && initial != []
    requires forall c | c in names ::
               |Neighbors(adj, c)| <= |Neighbors(adj, initial[0])|
               && (|Neighbors(adj, c)| == |Neighbors(adj, initial[0])| ==> Leq(c, initial[0]))
    ensures ByTies(names, adj, initial + out)
  {
    var s := initial + out;
    GreedyJoined(names, adj, initial, out);
    hide Greedy, Neighbors, Leq;
    forall k, c | 1 <= k < |s| && c in names && c !in s[..k] && Neighbors(adj, c) * Elems(s[..k]) != {} {
      GreedyMeans(names, adj, s, 1, k, c);
    }
  }

  lemma {:induction false} GreedyJoined(names: set<string>, adj: Adjacency, initial: seq<string>, out: seq<string>)
    requires Greedy(names, adj, initial, 1) && Greedy(names, adj, initial + out, |initial|)
    ensures Greedy(names, adj, initial + out, 1)
  {
    forall k | 1 <= k < |initial + out|
      ensures BestAt(names, adj, initial + out, k)
    {
      if k < |initial| {
        assert BestAt(names, adj, initial, k);
        assert (initial + out)[..k] == initial[..k];
      }
    }
  }

  /** As many initial nodes and then joiners as are asked for and as the largest connected set has. */
  ghost predicate Counted(initial: seq<string>, joiners: seq<string>, names: set<string>, initialNodes: int,
                          joinNodes: int) {
    && Elems(initial + joiners) <= names
    && |initial| == Min(initialNodes, |names|)
    && |joiners| == Min(if joinNodes <= 0 then 0 else joinNodes, |names| - |initial|)
  }

  /** Initial nodes, then joiners. */
  method Choose(names: set<string>, adj: Adjacency, initialNodes: int, joinNodes: int)
    returns (initial: seq<string>, joiners: seq<string>)
    requires Symmetric(adj) && ConnectedSet(names, adj)
    ensures Growing(names, adj, initial + joiners)
    ensures |initial| == if initialNodes <= 0 then 0 else Min(initialNodes, |names|)
    ensures |joiners| == if joinNodes <= 0 || initial == [] then 0 else Min(joinNodes, |names| - |initial|)
    ensures initial != [] ==> ByTies(names, adj, initial + joiners)
  {
    hide Greedy, Growing, Neighbors, ConnectedSet, Symmetric, ByTies, Leq;
    initial := ChooseInitialNodes(names, adj, initialNodes);
    joiners := ChooseJoiners(names, adj, initial, joinNodes);
    if initial != [] {
      GreedyTies(names, adj, initial, joiners);
    }
  }

  method CountComponents(names: set<string>, adj: Adjacency) returns (count: nat)
    requires Symmetric(adj) && ConnectedSet(names, adj)
    ensures count == if names == {} then 0 else 1
  {
    var comps := ConnectedComponents(names, adj);
    ComponentCount(comps, names, adj);
    count := |comps|;
  }

  datatype Outcome = NoNodes | Disconnected | Generated(initial: seq<string>, joiners: seq<string>)

  /**
   * The generator up to its guard. With a source of at least one node, the "generated scenario is
   * disconnected" exit is taken exactly when no initial node is asked for; otherwise the initial
   * nodes and joiners are connected by the links that are kept.
   */
  method Generate(nodes: set<string>, links: seq<Link>, initialNodes: int, joinNodes: int) returns (r: Outcome)
    ensures r.NoNodes? <==> nodes == {}
    ensures r.Disconnected? <==> nodes != {} && initialNodes <= 0
    ensures r.Generated? ==>
              && Distinct(r.initial + r.joiners) && Elems(r.initial + r.joiners) <= nodes
              && 1 <= |r.initial|
              && (exists names, adj {:trigger Source(names, nodes, adj)} ::
                    Describes(adj, links) && Source(names, nodes, adj)
                    && Counted(r.initial, r.joiners, names, initialNodes, joinNodes)
                    && ByTies(names, adj, r.initial + r.joiners))
              && forall out | Within(links, r.initial + r.joiners, out) ::
                   ConnectedSet(Elems(r.initial + r.joiners), out)
  {
    var adj := BuildAdjacency(links);
    var names := LargestConnectedComponent(nodes, adj);
    assert Source(names, nodes, adj);
    if names == {} {
      return NoNodes;
    }
    hide Describes, ConnectedSet, Source, Symmetric, Growing, Greedy, ByTies, Neighbors, Partition, Descending;
    var any :| any in names;
    SubsetSize({any}, names);
    var initial, joiners := Choose(names, adj, initialNodes, joinNodes);
    ghost var all := initial + joiners;
    GrowingMeans(names, adj, all);
    var selected := Elems(initial + joiners);
    var outLinks := KeepLinks(links, selected);
    var outAdj := BuildAdjacency(outLinks);
    KeepLinksConnected(links, selected, adj, outAdj);
    var count := CountComponents(selected, outAdj);
    assert initial != [] ==> all[0] in selected;
    assert initial == [] ==> selected == {};
    if count != 1 {
      return Disconnected;
    }
    forall out: Adjacency | Within(links, all, out) {
      KeptConnected(links, all, adj, out);
    }
    return Generated(initial, joiners);
  }

  lemma {:induction false} GrowingMeans(names: set<string>, adj: Adjacency, s: seq<string>)
    requires Symmetric(adj) && Growing(names, adj, s)
    ensures Distinct(s) && Elems(s) <= names && ConnectedSet(Elems(s), adj)
  {
    GrownConnected(adj, s);
  }

  /** The neighbors by links between two of the chosen nodes. */
  ghost predicate Within(links: seq<Link>, chosen: seq<string>, out: Adjacency) {
    forall a, b {:trigger b in Neighbors(out, a)} ::
      b in Neighbors(out, a) <==> a in chosen && b in chosen && Linked(links, a, b)
  }

  lemma {:induction false} KeptConnected(links: seq<Link>, chosen: seq<string>, adj: Adjacency, out: Adjacency)
    requires Describes(adj, links) && ConnectedSet(Elems(chosen), adj) && Within(links, chosen, out)
    ensures ConnectedSet(Elems(chosen), out)
  {
    LinksWithin(links, chosen, out);
    KeepLinksConnected(links, Elems(chosen), adj, out);
  }
}
