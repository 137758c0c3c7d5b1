/**
 Undirected reachability over the adjacency maps the registry works on.

 A graph maps each node to its neighbour set.  A neighbour that is not itself a key is
 not a node: the search in the registry ignores it, and so does `Edge`.
 */
module Reachability {
  import opened EdgePeers

  type Adjacency = map<EdgePeer, set<EdgePeer>>

  predicate Edge(g: Adjacency, u: EdgePeer, v: EdgePeer) {
    u in g && v in g && v in g[u]
  }

  ghost predicate Symmetric(g: Adjacency) {
    forall u, v :: Edge(g, u, v) ==> Edge(g, v, u)
  }

  ghost predicate IsPath(g: Adjacency, p: seq<EdgePeer>) {
    && |p| > 0
    && p[0] in g
    && forall i, j :: 0 <= i < j < |p| && j == i + 1 ==> Edge(g, p[i], p[j])
  }

  ghost predicate PathFromTo(g: Adjacency, p: seq<EdgePeer>, u: EdgePeer, v: EdgePeer) {
    IsPath(g, p) && p[0] == u && p[|p| - 1] == v
  }

  ghost predicate Reaches(g: Adjacency, u: EdgePeer, v: EdgePeer) {
    exists p :: PathFromTo(g, p, u, v)
  }

  /** No edge leaves `s`. */
  ghost predicate Closed(g: Adjacency, s: set<EdgePeer>) {
    forall u, v :: u in s && Edge(g, u, v) ==> v in s
  }

  /** The nodes reachable from `u`. */
  ghost function ReachSet(g: Adjacency, u: EdgePeer): set<EdgePeer> {
    set v | v in g && Reaches(g, u, v)
  }

  /** The connected components of a symmetric graph. */
  ghost function Components(g: Adjacency): set<set<EdgePeer>> {
    set u | u in g :: ReachSet(g, u)
  }

  ghost predicate Connected(g: Adjacency) {
    forall u, v :: u in g && v in g ==> Reaches(g, u, v)
  }

  // ----- Reachability is a preorder, and an equivalence on symmetric graphs -----

  lemma ReachesSelf(g: Adjacency, u: EdgePeer)
    requires u in g
    ensures Reaches(g, u, u)
  {
    assert PathFromTo(g, [u], u, u);
  }

  lemma EdgeReaches(g: Adjacency, u: EdgePeer, v: EdgePeer)
    requires Edge(g, u, v)
    ensures Reaches(g, u, v)
  {
    assert PathFromTo(g, [u, v], u, v);
  }

  lemma ReachesTransitive(g: Adjacency, u: EdgePeer, v: EdgePeer, w: EdgePeer)
    requires Reaches(g, u, v) && Reaches(g, v, w)
    ensures Reaches(g, u, w)
  {
    var p :| PathFromTo(g, p, u, v);
    var q :| PathFromTo(g, q, v, w);
    var r := p + q[1..];
    forall i, j | 0 <= i < j < |r| && j == i + 1
      ensures Edge(g, r[i], r[j])
    {
      if i >= |p| - 1 {
        assert r[i] == q[i - (|p| - 1)];
        assert r[j] == q[j - (|p| - 1)];
      }
    }
    assert PathFromTo(g, r, u, w);
  }

  lemma ReachesSymmetric(g: Adjacency, u: EdgePeer, v: EdgePeer)
    requires Symmetric(g) && Reaches(g, u, v)
    ensures Reaches(g, v, u)
  {
    var p :| PathFromTo(g, p, u, v);
    var r := seq(|p|, i requires 0 <= i < |p| => p[|p| - 1 - i]);
    assert r[0] in g by {
      if |p| > 1 {
        assert Edge(g, p[|p| - 2], p[|p| - 1]);
      }
    }
    forall i, j | 0 <= i < j < |r| && j == i + 1
      ensures Edge(g, r[i], r[j])
    {
      assert Edge(g, p[|p| - 1 - j], p[|p| - 1 - i]);
    }
    assert PathFromTo(g, r, v, u);
  }

  lemma ReachesOnlyNodes(g: Adjacency, u: EdgePeer, v: EdgePeer)
    requires Reaches(g, u, v)
    ensures u in g && v in g
  {
    var p :| PathFromTo(g, p, u, v);
    if |p| > 1 {
      assert Edge(g, p[|p| - 2], p[|p| - 1]);
    }
  }

  // ----- Closed sets and reachability determine each other -----

  /** A path that starts in a closed set never leaves it. */
  lemma {:induction false} ClosedKeepsPaths(g: Adjacency, s: set<EdgePeer>, p: seq<EdgePeer>)
    requires Closed(g, s) && IsPath(g, p) && p[0] in s
    ensures p[|p| - 1] in s
    decreases |p|
  {
    if |p| > 1 {
      ClosedKeepsPaths(g, s, p[..|p| - 1]);
      assert Edge(g, p[|p| - 2], p[|p| - 1]);
    }
  }

  lemma ClosedContainsReachable(g: Adjacency, s: set<EdgePeer>, u: EdgePeer, v: EdgePeer)
    requires Closed(g, s) && u in s && Reaches(g, u, v)
    ensures v in s
  {
    var p :| PathFromTo(g, p, u, v);
    ClosedKeepsPaths(g, s, p);
  }

  lemma ReachSetClosed(g: Adjacency, u: EdgePeer)
    ensures Closed(g, ReachSet(g, u))
  {
    forall v, w | v in ReachSet(g, u) && Edge(g, v, w)
      ensures w in ReachSet(g, u)
    {
      EdgeReaches(g, v, w);
      ReachesTransitive(g, u, v, w);
    }
  }

  /** A closed set whose members are all reachable from one of them is that one's reach set. */
  lemma ReachSetIs(g: Adjacency, u: EdgePeer, s: set<EdgePeer>)
    requires u in s && Closed(g, s)
    requires forall v :: v in s ==> v in g && Reaches(g, u, v)
    ensures ReachSet(g, u) == s
  {
    forall v | v in ReachSet(g, u)
      ensures v in s
    {
      ClosedContainsReachable(g, s, u, v);
    }
  }

  lemma SameReachSet(g: Adjacency, u: EdgePeer, v: EdgePeer)
    requires Symmetric(g) && Reaches(g, u, v)
    ensures ReachSet(g, u) == ReachSet(g, v)
  {
    ReachesSymmetric(g, u, v);
    ReachesOnlyNodes(g, u, v);
    ReachSetClosed(g, u);
    forall w | w in ReachSet(g, u)
      ensures Reaches(g, v, w)
    {
      ReachesTransitive(g, v, u, w);
    }
    ReachSetIs(g, v, ReachSet(g, u));
  }

  /** Two reach sets of a symmetric graph are equal or disjoint, exactly by reachability. */
  lemma ReachSetsEqualIff(g: Adjacency, u: EdgePeer, v: EdgePeer)
    requires Symmetric(g) && u in g && v in g
    ensures Reaches(g, u, v) <==> ReachSet(g, u) == ReachSet(g, v)
  {
    ReachesSelf(g, v);
    if Reaches(g, u, v) {
      SameReachSet(g, u, v);
    } else {
      assert v in ReachSet(g, v) && v !in ReachSet(g, u);
    }
  }

  // ----- One root per component counts the components -----

  ghost predicate PairwiseUnreachable(g: Adjacency, roots: seq<EdgePeer>) {
    forall i, j :: 0 <= i < |roots| && 0 <= j < |roots| && Reaches(g, roots[i], roots[j]) ==> i == j
  }

  ghost predicate HasRoot(g: Adjacency, roots: seq<EdgePeer>, u: EdgePeer) {
    exists i :: 0 <= i < |roots| && Reaches(g, roots[i], u)
  }

  ghost predicate ReachedFrom(g: Adjacency, roots: seq<EdgePeer>, nodes: set<EdgePeer>) {
    forall u {:trigger HasRoot(g, roots, u)} :: u in nodes ==> HasRoot(g, roots, u)
  }

  /** Nodes of pairwise different components. */
  ghost predicate ApartRoots(g: Adjacency, roots: seq<EdgePeer>) {
    (forall i :: 0 <= i < |roots| ==> roots[i] in g) && PairwiseUnreachable(g, roots)
  }

  /** `roots` holds exactly one node of every component. */
  ghost predicate Representatives(g: Adjacency, roots: seq<EdgePeer>) {
    ApartRoots(g, roots) && ReachedFrom(g, roots, g.Keys)
  }

  ghost function ReachSetsOf(g: Adjacency, roots: seq<EdgePeer>): (r: seq<set<EdgePeer>>)
    ensures |r| == |roots|
  {
    seq(|roots|, i requires 0 <= i < |roots| => ReachSet(g, roots[i]))
  }

  lemma {:induction false} DistinctElements<T>(s: seq<T>)
    requires forall i, j :: 0 <= i < j < |s| ==> s[i] != s[j]
    ensures |set x | x in s| == |s|
  {
    if |s| > 0 {
      var k := |s| - 1;
      DistinctElements(s[..k]);
      assert s[k] !in s[..k];
      assert (set x | x in s) == (set x | x in s[..k]) + {s[k]};
    }
  }

  lemma RepresentativesCountComponents(g: Adjacency, roots: seq<EdgePeer>)
    requires Symmetric(g) && Representatives(g, roots)
    ensures |Components(g)| == |roots|
  {
    var sets := ReachSetsOf(g, roots);
    forall u | u in g
      ensures ReachSet(g, u) in sets
    {
      assert HasRoot(g, roots, u);
      var i :| 0 <= i < |roots| && Reaches(g, roots[i], u);
      SameReachSet(g, roots[i], u);
      assert sets[i] == ReachSet(g, u);
    }
    forall i, j | 0 <= i < j < |roots|
      ensures sets[i] != sets[j]
    {
      ReachSetsEqualIff(g, roots[i], roots[j]);
    }
    DistinctElements(sets);
    assert Components(g) == set s | s in sets;
  }

  /** A graph is disconnected exactly when it has more than one component. */
  lemma DisconnectedIff(g: Adjacency, roots: seq<EdgePeer>)
    requires Symmetric(g) && Representatives(g, roots)
    ensures |roots| > 1 <==> !Connected(g)
  {
    if |roots| > 1 {
      assert !Reaches(g, roots[0], roots[1]);
    } else {
      forall u, v | u in g && v in g
        ensures Reaches(g, u, v)
      {
        assert HasRoot(g, roots, u) && HasRoot(g, roots, v);
        ReachesSymmetric(g, roots[0], u);
        ReachesTransitive(g, u, roots[0], v);
      }
    }
  }

  // ----- Adding one undirected edge -----

  function AddEdge(g: Adjacency, u: EdgePeer, v: EdgePeer): Adjacency
    requires u in g && v in g
  {
    var h := g[u := g[u] + {v}];
    h[v := h[v] + {u}]
  }

  lemma AddEdgeEdges(g: Adjacency, u: EdgePeer, v: EdgePeer)
    requires u in g && v in g
    ensures forall x, y :: Edge(AddEdge(g, u, v), x, y) <==> Edge(g, x, y) || (x == u && y == v) || (x == v && y == u)
    ensures Symmetric(g) ==> Symmetric(AddEdge(g, u, v))
  {
  }

  /** More edges over the same nodes never lose reachability. */
  lemma ReachesMonotone(g: Adjacency, h: Adjacency, u: EdgePeer, v: EdgePeer)
    requires forall x, y :: Edge(g, x, y) ==> Edge(h, x, y)
    requires g.Keys <= h.Keys
    requires Reaches(g, u, v)
    ensures Reaches(h, u, v)
  {
    var p :| PathFromTo(g, p, u, v);
    assert PathFromTo(h, p, u, v);
  }

  /** Any node outside the two joined components keeps its reach set; the two become one. */
  lemma AddEdgeReachSet(g: Adjacency, u: EdgePeer, v: EdgePeer, x: EdgePeer)
    requires Symmetric(g) && u in g && v in g && x in g
    ensures ReachSet(AddEdge(g, u, v), x) ==
            if Reaches(g, x, u) || Reaches(g, x, v) then ReachSet(g, u) + ReachSet(g, v) else ReachSet(g, x)
  {
    var h := AddEdge(g, u, v);
    AddEdgeEdges(g, u, v);
    ReachesSelf(g, x);
    ReachSetClosed(g, x);
    if Reaches(g, x, u) || Reaches(g, x, v) {
      var s := ReachSet(g, u) + ReachSet(g, v);
      ReachSetClosed(g, u);
      ReachSetClosed(g, v);
      ReachesSelf(g, u);
      ReachesSelf(g, v);
      assert Closed(h, s);
      assert x in s by {
        if Reaches(g, x, u) {
          ReachesSymmetric(g, x, u);
        } else {
          ReachesSymmetric(g, x, v);
        }
      }
      EdgeReaches(h, u, v);
      EdgeReaches(h, v, u);
      assert Reaches(h, x, u) && Reaches(h, x, v) by {
        if Reaches(g, x, u) {
          ReachesMonotone(g, h, x, u);
          ReachesTransitive(h, x, u, v);
        } else {
          ReachesMonotone(g, h, x, v);
          ReachesTransitive(h, x, v, u);
        }
      }
      forall y | y in s
        ensures Reaches(h, x, y)
      {
        var root := if y in ReachSet(g, u) then u else v;
        ReachesMonotone(g, h, root, y);
        ReachesTransitive(h, x, root, y);
      }
      ReachSetIs(h, x, s);
    } else {
      var s := ReachSet(g, x);
      forall y | y in s
        ensures Reaches(h, x, y)
      {
        ReachesMonotone(g, h, x, y);
      }
      ReachSetIs(h, x, s);
    }
  }

  /** Joining two nodes that already reach each other changes no component. */
  lemma AddEdgeInside(g: Adjacency, u: EdgePeer, v: EdgePeer)
    requires Symmetric(g) && Reaches(g, u, v) && u in g && v in g
    ensures forall x :: x in g ==> ReachSet(AddEdge(g, u, v), x) == ReachSet(g, x)
    ensures Components(AddEdge(g, u, v)) == Components(g)
  {
    SameReachSet(g, u, v);
    forall x | x in g
      ensures ReachSet(AddEdge(g, u, v), x) == ReachSet(g, x)
    {
      AddEdgeReachSet(g, u, v, x);
      if Reaches(g, x, u) {
        SameReachSet(g, x, u);
      } else if Reaches(g, x, v) {
        SameReachSet(g, x, v);
      }
    }
    assert AddEdge(g, u, v).Keys == g.Keys;
  }

  /** Joining two components removes exactly one from the count. */
  lemma AddEdgeAcross(g: Adjacency, u: EdgePeer, v: EdgePeer)
    requires Symmetric(g) && u in g && v in g && !Reaches(g, u, v)
    ensures Components(AddEdge(g, u, v)) ==
            Components(g) - {ReachSet(g, u), ReachSet(g, v)} + {ReachSet(g, u) + ReachSet(g, v)}
    ensures |Components(AddEdge(g, u, v))| == |Components(g)| - 1
  {
    var h := AddEdge(g, u, v);
    var a, b := ReachSet(g, u), ReachSet(g, v);
    ReachesSelf(g, u);
    ReachesSelf(g, v);
    assert h.Keys == g.Keys;
    forall x | x in g
      ensures ReachSet(h, x) == if ReachSet(g, x) in {a, b} then a + b else ReachSet(g, x)
    {
      AddEdgeReachSet(g, u, v, x);
      ReachSetsEqualIff(g, x, u);
      ReachSetsEqualIff(g, x, v);
    }
    assert v in b && v !in a && u in a && u !in b by {
      if Reaches(g, v, u) {
        ReachesSymmetric(g, v, u);
      }
    }
    var expected := Components(g) - {a, b} + {a + b};
    forall s | s in expected
      ensures s in Components(h)
    {
      if s == a + b {
        assert ReachSet(h, u) == s;
      } else {
        var x :| x in g && s == ReachSet(g, x);
        assert ReachSet(h, x) == s;
      }
    }
    assert Components(h) == expected;
    assert a + b !in Components(g) by {
      if a + b in Components(g) {
        var x :| x in g && ReachSet(g, x) == a + b;
        ReachSetsEqualIff(g, x, u);
      }
    }
  }
}
