/**
 The registry's picture of the overlay: built from the peers' own neighbour sets,
 symmetrised in place, and searched for connected components.
 */
module OverlayGraph {
  import opened EdgePeers
  import opened Reachability

  /** What the registry learns from one `GetNeighbours` call. */
  datatype Reply =
    | NoReply                              // the timer fired first
    | CallFailed                           // the call ended with an error: the reply map stays nil
    | Neighbours(adjs: set<EdgePeer>)

  /** An inner map of the graph.  Reading a nil map finds nothing; writing to it panics. */
  datatype NeighbourMap = NilMap | Allocated(adjs: set<EdgePeer>) {
    function Elements(): set<EdgePeer> {
      match this
      case NilMap => {}
      case Allocated(s) => s
    }
  }

  function ReplyOf(replies: map<EdgePeer, Reply>, peer: EdgePeer): Reply {
    if peer in replies then replies[peer] else NoReply
  }

  function InnerMap(reply: Reply): NeighbourMap {
    if reply.Neighbours? then Allocated(reply.adjs) else NilMap
  }

  /** The peers that end up as nodes: connected, alive, and not timed out. */
  function Responding(connected: set<EdgePeer>, alive: set<EdgePeer>, replies: map<EdgePeer, Reply>): set<EdgePeer> {
    set p | p in connected && p in alive && ReplyOf(replies, p) != NoReply
  }

  /** The directed relation the responding peers reported, restricted to live neighbours. */
  function Reported(connected: set<EdgePeer>, alive: set<EdgePeer>, replies: map<EdgePeer, Reply>): Adjacency {
    map p | p in Responding(connected, alive, replies) :: InnerMap(ReplyOf(replies, p)).Elements() * alive
  }

  /** Some responding peer lists a live peer whose own call ended with an error. */
  ghost predicate ListsFailedPeer(connected: set<EdgePeer>, alive: set<EdgePeer>, replies: map<EdgePeer, Reply>) {
    exists u, v :: v in connected && ReplyOf(replies, v) == CallFailed &&
                   u in Responding(connected, alive, replies) && v in Reported(connected, alive, replies)[u]
  }

  /** `u` answered, and `v` is among its neighbours. */
  predicate Lists(replies: map<EdgePeer, Reply>, u: EdgePeer, v: EdgePeer) {
    u in replies && match replies[u] case Neighbours(adjs) => v in adjs case _ => false
  }

  lemma ListsFailedPeerIff(connected: set<EdgePeer>, alive: set<EdgePeer>, replies: map<EdgePeer, Reply>)
    ensures ListsFailedPeer(connected, alive, replies) <==>
              exists u, v :: Lists(replies, u, v) && u in connected && u in alive &&
                             v in connected && v in alive && v in replies && replies[v] == CallFailed
  {
    if u, v :| Lists(replies, u, v) && u in connected && u in alive &&
               v in connected && v in alive && v in replies && replies[v] == CallFailed {
      assert v in Reported(connected, alive, replies)[u];
    }
    if u, v :| v in connected && ReplyOf(replies, v) == CallFailed &&
               u in Responding(connected, alive, replies) && v in Reported(connected, alive, replies)[u] {
      assert Lists(replies, u, v);
    }
  }

  /** The built graph, edge by edge. */
  lemma BuiltEdges(connected: set<EdgePeer>, alive: set<EdgePeer>, replies: map<EdgePeer, Reply>)
    ensures var g := SymmetricClosure(Reported(connected, alive, replies));
            forall u, v :: u in g ==> (v in g[u] <==> (Lists(replies, u, v) && v in alive) || (v in g && Lists(replies, v, u)))
  {
  }

  /** A node without neighbours is a component of its own. */
  lemma IsolatedNode(g: Adjacency, u: EdgePeer)
    requires u in g && g[u] == {}
    ensures ReachSet(g, u) == {u}
  {
    ReachesSelf(g, u);
    ReachSetIs(g, u, {u});
  }

  /** A peer that reports nobody and that nobody reports is a component of its own. */
  lemma IsolatedReply(connected: set<EdgePeer>, alive: set<EdgePeer>, replies: map<EdgePeer, Reply>, u: EdgePeer)
    requires u in Responding(connected, alive, replies) && !exists v :: Lists(replies, u, v)
    requires forall v :: v in Responding(connected, alive, replies) ==> !Lists(replies, v, u)
    ensures ReachSet(SymmetricClosure(Reported(connected, alive, replies)), u) == {u}
  {
    BuiltEdges(connected, alive, replies);
    var g := SymmetricClosure(Reported(connected, alive, replies));
    assert forall v :: v !in g[u];
    IsolatedNode(g, u);
  }

  lemma BuiltFrom(connected: set<EdgePeer>, alive: set<EdgePeer>, replies: map<EdgePeer, Reply>, g: Adjacency)
    requires g == SymmetricClosure(Reported(connected, alive, replies))
    ensures forall u, v :: u in g ==> (v in g[u] <==> (Lists(replies, u, v) && v in alive) || (v in g && Lists(replies, v, u)))
    ensures forall u :: u in g && replies[u] == Neighbours({}) && (forall v :: v in g ==> !Lists(replies, v, u)) ==>
              ReachSet(g, u) == {u}
  {
    BuiltEdges(connected, alive, replies);
    forall u | u in g && replies[u] == Neighbours({}) && forall v :: v in g ==> !Lists(replies, v, u)
      ensures ReachSet(g, u) == {u}
    {
      IsolatedReply(connected, alive, replies, u);
    }
  }

  /** Two live peers, one listing the other, whose own call fails: building the graph panics. */
  lemma FailedNeighbourIsListed(a: EdgePeer, b: EdgePeer)
    requires a != b
    ensures ListsFailedPeer({a, b}, {a, b}, map[a := Neighbours({b}), b := CallFailed])
  {
    var replies := map[a := Neighbours({b}), b := CallFailed];
    assert ReplyOf(replies, a) == Neighbours({b}) && ReplyOf(replies, b) == CallFailed;
    assert b in Reported({a, b}, {a, b}, replies)[a];
  }

  /** Each node's neighbours together with the nodes that list it. */
  function SymmetricClosure(g: Adjacency): Adjacency {
    map u | u in g :: g[u] + set v | v in g && u in g[v]
  }

  lemma SymmetricClosureEdges(g: Adjacency)
    ensures forall u, v :: Edge(SymmetricClosure(g), u, v) <==> Edge(g, u, v) || Edge(g, v, u)
    ensures Symmetric(SymmetricClosure(g))
  {
  }

  /** The nodes not yet visited, with their neighbour sets. */
  function Unvisited(g: Adjacency, visited: set<EdgePeer>): Adjacency {
    map u | u in g && u !in visited :: g[u]
  }

  /** Once whole components are visited, the search from a new root sees its entire component. */
  lemma UnvisitedReachSet(g: Adjacency, visited: set<EdgePeer>, u: EdgePeer)
    requires Symmetric(g) && Closed(g, visited) && u in g && u !in visited
    ensures ReachSet(Unvisited(g, visited), u) == ReachSet(g, u)
  {
    var w := Unvisited(g, visited);
    var s := ReachSet(w, u);
    ReachesSelf(w, u);
    ReachSetClosed(w, u);
    forall x, y | x in s && Edge(g, x, y)
      ensures y in s
    {
      assert Edge(g, y, x);
      assert Edge(w, x, y);
    }
    forall x | x in s
      ensures Reaches(g, u, x)
    {
      ReachesMonotone(w, g, u, x);
    }
    ReachSetIs(g, u, s);
  }

  /** The inner maps as sets: a nil map has no elements. */
  function SetsOf(g: map<EdgePeer, NeighbourMap>): Adjacency {
    map u | u in g :: g[u].Elements()
  }

  /** `u` lists a node whose failed call left a nil map. */
  ghost predicate NodeListsFailed(g: map<EdgePeer, NeighbourMap>, u: EdgePeer)
    requires u in g
  {
    exists v :: v in g && v in g[u].Elements() && g[v].NilMap?
  }

  ghost predicate ListsFailedNode(g: map<EdgePeer, NeighbourMap>) {
    exists u :: u in g && NodeListsFailed(g, u)
  }

  /** `g` after `node` was written into the allocated maps of `adjs`. */
  ghost function ReverseOf(g: map<EdgePeer, NeighbourMap>, node: EdgePeer, adjs: set<EdgePeer>): map<EdgePeer, NeighbourMap> {
    map u | u in g :: if u in adjs && g[u].Allocated? then Allocated(g[u].adjs + {node}) else g[u]
  }

  /** `g` after the nodes in `done` were written into their neighbours' maps. */
  ghost function WithReverseEdges(g: map<EdgePeer, NeighbourMap>, done: set<EdgePeer>): map<EdgePeer, NeighbourMap> {
    map u | u in g ::
      if g[u].Allocated? then Allocated(g[u].adjs + set v | v in done && v in g && u in g[v].Elements()) else NilMap
  }

  lemma NoReverseEdges(g: map<EdgePeer, NeighbourMap>)
    ensures WithReverseEdges(g, {}) == g
  {
    forall u | u in g && g[u].Allocated?
      ensures WithReverseEdges(g, {})[u] == g[u]
    {
      assert WithReverseEdges(g, {})[u].adjs == g[u].adjs;
    }
  }

  /** Reverse edges added earlier do not change what a later node contributes. */
  lemma OneMoreNode(g: map<EdgePeer, NeighbourMap>, done: set<EdgePeer>, node: EdgePeer)
    requires node in g && node !in done
    ensures ReverseOf(WithReverseEdges(g, done), node, WithReverseEdges(g, done)[node].Elements()) ==
            WithReverseEdges(g, done + {node})
  {
    var h := WithReverseEdges(g, done);
    var l, r := ReverseOf(h, node, h[node].Elements()), WithReverseEdges(g, done + {node});
    assert l.Keys == r.Keys;
    forall u | u in g
      ensures l[u] == r[u]
    {
      if g[u].Allocated? {
        assert l[u].adjs == r[u].adjs;
      }
    }
  }

  lemma ListsFailedStays(g: map<EdgePeer, NeighbourMap>, done: set<EdgePeer>, node: EdgePeer)
    requires node in g
    ensures NodeListsFailed(WithReverseEdges(g, done), node) <==> NodeListsFailed(g, node)
  {
    if v :| v in g && v in g[node].Elements() && g[v].NilMap? {
      assert WithReverseEdges(g, done)[v].NilMap? && v in WithReverseEdges(g, done)[node].Elements();
    }
  }

  /** With every node written into its neighbours' maps, the graph is the symmetric closure. */
  lemma AllReverseEdges(g: map<EdgePeer, NeighbourMap>)
    requires !ListsFailedNode(g)
    ensures SetsOf(WithReverseEdges(g, g.Keys)) == SymmetricClosure(SetsOf(g))
  {
    var l, r := SetsOf(WithReverseEdges(g, g.Keys)), SymmetricClosure(SetsOf(g));
    forall u | u in g
      ensures l[u] == r[u]
    {
      if v :| v in g && u in g[v].Elements() && g[u].NilMap? {
        assert NodeListsFailed(g, v);
      }
    }
  }

  predicate Distinct(s: seq<EdgePeer>) {
    forall i, j :: 0 <= i < j < |s| ==> s[i] != s[j]
  }

  function Elements(s: seq<EdgePeer>): set<EdgePeer> {
    set p | p in s
  }

  lemma DistinctJoin(s: seq<EdgePeer>, t: seq<EdgePeer>, p: EdgePeer)
    requires Distinct(s) && Distinct(t) && p !in Elements(s) && p !in Elements(t)
    requires Elements(s) !! Elements(t)
    ensures Distinct(s + t + [p])
    ensures Elements(s + t + [p]) == Elements(s) + Elements(t) + {p}
  {
    var r := s + t + [p];
    forall i, j | 0 <= i < j < |r|
      ensures r[i] != r[j]
    {
      assert i < |s| ==> r[i] in Elements(s);
      assert |s| <= i < |s| + |t| ==> r[i] in Elements(t);
      assert |s| <= j < |s| + |t| ==> r[j] in Elements(t);
    }
  }

  /** The `visitedMap` shared by all recursive calls of one search. */
  class VisitedMap {
    var visited: map<EdgePeer, bool>

    constructor (nodes: set<EdgePeer>)
      ensures visited.Keys == nodes && Marked() == {}
    {
      visited := map n | n in nodes :: false;
    }

    ghost function Marked(): set<EdgePeer>
      reads this
    {
      set n | n in visited && visited[n]
    }
  }

  class Graph {
    var graph: map<EdgePeer, NeighbourMap>

    constructor ()
      ensures graph == map[]
    {
      graph := map[];
    }

    /** The graph as adjacency sets: a nil inner map has no elements. */
    ghost function View(): Adjacency
      reads this
    {
      SetsOf(graph)
    }

    /**
     Builds the graph from the outcome of every `GetNeighbours` call.  All three loops
     visit their map in an arbitrary order.  `panicked` reports the write to a nil map.
     */
    method BuildGraph(connected: set<EdgePeer>, alive: set<EdgePeer>, replies: map<EdgePeer, Reply>)
      returns (panicked: bool)
      requires graph == map[]
      modifies this
      ensures forall p :: p in graph <==> p in connected && p in alive && p in replies && replies[p] != NoReply
      ensures panicked <==> exists u, v :: Lists(replies, u, v) && u in connected && u in alive &&
                                           v in connected && v in alive && v in replies && replies[v] == CallFailed
      ensures !panicked ==> forall u, v :: u in graph ==>
                (v in View()[u] <==> (Lists(replies, u, v) && v in alive) || (v in graph && Lists(replies, v, u)))
      ensures !panicked ==> forall u :: u in graph && replies[u] == Neighbours({}) && (forall v :: v in graph ==> !Lists(replies, v, u)) ==>
                ReachSet(View(), u) == {u}
      ensures graph.Keys == Responding(connected, alive, replies)
      ensures panicked <==> ListsFailedPeer(connected, alive, replies)
      ensures !panicked ==> View() == SymmetricClosure(Reported(connected, alive, replies))
    {
      CollectReplies(connected, alive, replies);
      DropDeadNeighbours(alive);
      assert forall p :: p in graph ==> graph[p].Elements() == InnerMap(ReplyOf(replies, p)).Elements() * alive;
      assert View() == Reported(connected, alive, replies);
      panicked := Symmetrise();
      ListsFailedPeerIff(connected, alive, replies);
      if !panicked {
        BuiltFrom(connected, alive, replies, View());
      }
    }

    method CollectReplies(connected: set<EdgePeer>, alive: set<EdgePeer>, replies: map<EdgePeer, Reply>)
      requires graph == map[]
      modifies this
      ensures forall p :: p in graph <==> p in connected && p in alive && p in replies && replies[p] != NoReply
      ensures forall p :: p in graph ==>
                graph[p] == match replies[p] case Neighbours(adjs) => Allocated(adjs) case _ => NilMap
      ensures graph == map p | p in Responding(connected, alive, replies) :: InnerMap(ReplyOf(replies, p))
    {
      var todo := connected;
      while todo != {}
        invariant todo <= connected
        invariant graph == map p | p in Responding(connected - todo, alive, replies) :: InnerMap(ReplyOf(replies, p))
        decreases todo
      {
        var peer :| peer in todo;
        todo := todo - {peer};
        if peer in alive {
          match ReplyOf(replies, peer)
          case Neighbours(_) => graph := graph[peer := InnerMap(ReplyOf(replies, peer))];
          case CallFailed => graph := graph[peer := NilMap];
          case NoReply =>
        }
      }
      assert connected - todo == connected;
    }

    method DropDeadNeighbours(alive: set<EdgePeer>)
      modifies this
      ensures graph.Keys == old(graph).Keys
      ensures forall u :: u in graph ==>
                graph[u] == match old(graph)[u] case NilMap => NilMap case Allocated(s) => Allocated(s * alive)
    {
      var todo := graph.Keys;
      while todo != {}
        invariant todo <= graph.Keys == old(graph).Keys
        invariant forall u :: u in todo ==> graph[u] == old(graph)[u]
        invariant forall u :: u in graph && u !in todo ==>
                    graph[u] == match old(graph)[u] case NilMap => NilMap case Allocated(s) => Allocated(s * alive)
        decreases todo
      {
        var node :| node in todo;
        todo := todo - {node};
        if graph[node].Allocated? {
          graph := graph[node := Allocated(graph[node].adjs * alive)];
        }
      }
    }

    /** The in-place double loop: every listed node gets the node that lists it. */
    method Symmetrise() returns (panicked: bool)
      modifies this
      ensures graph.Keys == old(graph).Keys
      ensures panicked <==> ListsFailedNode(old(graph))
      ensures !panicked ==> View() == SymmetricClosure(old(View()))
    {
      ghost var g := graph;
      var todo := graph.Keys;
      NoReverseEdges(g);
      assert g.Keys - todo == {};
      while todo != {}
        invariant todo <= g.Keys
        invariant graph == WithReverseEdges(g, g.Keys - todo)
        invariant forall u :: u in g && u !in todo ==> !NodeListsFailed(g, u)
        decreases todo
      {
        var node :| node in todo;
        ListsFailedStays(g, g.Keys - todo, node);
        panicked := AddReverseEdges(node);
        if panicked {
          return;
        }
        assert g.Keys - (todo - {node}) == g.Keys - todo + {node};
        OneMoreNode(g, g.Keys - todo, node);
        todo := todo - {node};
      }
      assert g.Keys - todo == g.Keys;
      AllReverseEdges(g);
      panicked := false;
    }

    /** The inner loop: `node` is written into the map of each of its neighbours. */
    method AddReverseEdges(node: EdgePeer) returns (panicked: bool)
      requires node in graph
      modifies this
      ensures graph.Keys == old(graph).Keys
      ensures panicked <==> NodeListsFailed(old(graph), node)
      ensures !panicked ==> graph == ReverseOf(old(graph), node, old(graph)[node].Elements())
    {
      ghost var g := graph;
      var adjs := graph[node].Elements();
      while adjs != {}
        invariant adjs <= g[node].Elements()
        invariant graph == ReverseOf(g, node, g[node].Elements() - adjs)
        invariant forall v :: v in g && v in g[node].Elements() - adjs ==> !g[v].NilMap?
        decreases adjs
      {
        var adj :| adj in adjs;
        if adj in graph {
          if graph[adj].NilMap? {
            return true;
          }
          graph := graph[adj := Allocated(graph[adj].adjs + {node})];
        }
        adjs := adjs - {adj};
      }
      assert g[node].Elements() - adjs == g[node].Elements();
      panicked := false;
    }

    /**
     The recursive search.  As written it never appends `neighbour`, so it returns the
     empty list; `appendNeighbour` is the one-line correction.  Either way it marks
     exactly the nodes reachable from `peer` through nodes unvisited at the call.
     */
    method Explore(peer: EdgePeer, visitedMap: VisitedMap, appendNeighbour: bool) returns (foundPeers: seq<EdgePeer>)
      requires peer in graph && visitedMap.visited.Keys == graph.Keys && !visitedMap.visited[peer]
      modifies visitedMap
      ensures visitedMap.visited.Keys == old(visitedMap.visited.Keys)
      ensures visitedMap.Marked() ==
              old(visitedMap.Marked()) + ReachSet(Unvisited(View(), old(visitedMap.Marked())), peer)
      ensures Distinct(foundPeers)
      ensures !appendNeighbour ==> foundPeers == []
      ensures appendNeighbour ==> Elements(foundPeers) == visitedMap.Marked() - old(visitedMap.Marked()) - {peer}
      decreases visitedMap.visited.Keys - visitedMap.Marked()
    {
      ghost var g, m0 := View(), visitedMap.Marked();
      ghost var w := Unvisited(g, m0);
      ReachesSelf(w, peer);
      visitedMap.visited := visitedMap.visited[peer := true];
      assert visitedMap.Marked() == m0 + {peer};
      foundPeers := [];
      var todo := graph[peer].Elements();
      while todo != {}
        invariant todo <= g[peer]
        invariant visitedMap.visited.Keys == graph.Keys
        invariant m0 + {peer} <= visitedMap.Marked() <= m0 + ReachSet(w, peer)
        invariant forall x, y :: x in visitedMap.Marked() - m0 - {peer} && Edge(w, x, y) ==> y in visitedMap.Marked()
        invariant forall y :: y in g[peer] - todo && y in w ==> y in visitedMap.Marked()
        invariant Distinct(foundPeers)
        invariant !appendNeighbour ==> foundPeers == []
        invariant appendNeighbour ==> Elements(foundPeers) == visitedMap.Marked() - m0 - {peer}
        decreases todo
      {
        var neighbour :| neighbour in todo;
        todo := todo - {neighbour};
        if neighbour in visitedMap.visited && !visitedMap.visited[neighbour] {
          ghost var m, found0 := visitedMap.Marked(), foundPeers;
          var neighboursOfNeighbour := Explore(neighbour, visitedMap, appendNeighbour);
          ExploredWithin(g, m0, m, peer, neighbour);
          foundPeers := foundPeers + neighboursOfNeighbour;
          if appendNeighbour {
            DistinctJoin(found0, neighboursOfNeighbour, neighbour);
            foundPeers := foundPeers + [neighbour];
          }
        }
      }
      ReachSetIs(w, peer, visitedMap.Marked() - m0);
    }

    /** One root per component; with the correction, one complete list per component. */
    method FindConnectedComponents(appendNeighbour: bool) returns (components: seq<seq<EdgePeer>>)
      requires Symmetric(View())
      ensures forall i :: 0 <= i < |components| ==> |components[i]| > 0
      ensures Representatives(View(), Roots(components))
      ensures |components| == |Components(View())|
      ensures |components| > 1 <==> !Connected(View())
      ensures forall i :: 0 <= i < |components| ==>
                ListOfRoot(View(), components[i], Roots(components)[i], appendNeighbour)
    {
      ghost var g := View();
      ghost var roots: seq<EdgePeer> := [];
      var visitedMap := new VisitedMap(graph.Keys);
      components := [];
      var todo := graph.Keys;
      while todo != {}
        invariant todo <= g.Keys == graph.Keys == visitedMap.visited.Keys
        invariant g.Keys - todo <= visitedMap.Marked()
        invariant forall i :: 0 <= i < |roots| ==> roots[i] in g
        invariant FoundSoFar(g, visitedMap.Marked(), roots, components, appendNeighbour)
        decreases todo
      {
        var peer :| peer in todo;
        todo := todo - {peer};
        if !visitedMap.visited[peer] {
          ghost var m := visitedMap.Marked();
          var foundPeers := Explore(peer, visitedMap, appendNeighbour);
          FoundOneMore(g, m, roots, components, appendNeighbour, peer, foundPeers, visitedMap.Marked());
          foundPeers := foundPeers + [peer];
          components, roots := components + [foundPeers], roots + [peer];
        }
      }
      FoundAll(g, visitedMap.Marked(), roots, components, appendNeighbour);
    }
  }

  /** The node each component search started from: the last element of its list. */
  ghost function Roots(components: seq<seq<EdgePeer>>): (r: seq<EdgePeer>)
    requires forall i :: 0 <= i < |components| ==> |components[i]| > 0
    ensures |r| == |components|
  {
    seq(|components|, i requires 0 <= i < |components| => components[i][|components[i]| - 1])
  }

  /** The list a search from `root` produced. */
  ghost predicate ListOfRoot(g: Adjacency, component: seq<EdgePeer>, root: EdgePeer, appendNeighbour: bool) {
    && |component| > 0
    && component[|component| - 1] == root
    && Distinct(component)
    && if appendNeighbour then Elements(component) == ReachSet(g, root) else component == [root]
  }

  /** The marked nodes are whole components, one root and one list for each. */
  ghost predicate FoundSoFar(g: Adjacency, marked: set<EdgePeer>, roots: seq<EdgePeer>,
                             components: seq<seq<EdgePeer>>, appendNeighbour: bool)
  {
    && Closed(g, marked)
    && |roots| == |components|
    && (forall i :: 0 <= i < |components| ==> ListOfRoot(g, components[i], roots[i], appendNeighbour))
    && (forall i :: 0 <= i < |roots| ==> roots[i] in marked)
    && PairwiseUnreachable(g, roots)
    && ReachedFrom(g, roots, marked)
  }

  lemma ReachedFromOneMore(g: Adjacency, roots: seq<EdgePeer>, nodes: set<EdgePeer>, peer: EdgePeer)
    requires ReachedFrom(g, roots, nodes)
    ensures ReachedFrom(g, roots + [peer], nodes + ReachSet(g, peer))
  {
    var more := roots + [peer];
    forall u | u in nodes + ReachSet(g, peer)
      ensures HasRoot(g, more, u)
    {
      if u in nodes {
        assert HasRoot(g, roots, u);
        var i :| 0 <= i < |roots| && Reaches(g, roots[i], u);
        assert more[i] == roots[i];
      } else {
        assert more[|roots|] == peer;
      }
    }
  }

  lemma PairwiseUnreachableOneMore(g: Adjacency, marked: set<EdgePeer>, roots: seq<EdgePeer>, peer: EdgePeer)
    requires Symmetric(g) && Closed(g, marked) && peer !in marked
    requires forall i :: 0 <= i < |roots| ==> roots[i] in marked
    requires PairwiseUnreachable(g, roots)
    ensures PairwiseUnreachable(g, roots + [peer])
  {
    NewRoot(g, marked, roots, peer);
    var more := roots + [peer];
    forall i, j | 0 <= i < |more| && 0 <= j < |more| && Reaches(g, more[i], more[j])
      ensures i == j
    {
      if i < |roots| && j < |roots| {
        assert Reaches(g, roots[i], roots[j]);
      }
    }
  }

  lemma FoundOneMore(g: Adjacency, marked: set<EdgePeer>, roots: seq<EdgePeer>, components: seq<seq<EdgePeer>>,
                     appendNeighbour: bool, peer: EdgePeer, foundPeers: seq<EdgePeer>, markedAfter: set<EdgePeer>)
    requires Symmetric(g) && peer in g && peer !in marked
    requires FoundSoFar(g, marked, roots, components, appendNeighbour)
    requires markedAfter == marked + ReachSet(Unvisited(g, marked), peer)
    requires Distinct(foundPeers)
    requires !appendNeighbour ==> foundPeers == []
    requires appendNeighbour ==> Elements(foundPeers) == markedAfter - marked - {peer}
    ensures FoundSoFar(g, markedAfter, roots + [peer], components + [foundPeers + [peer]], appendNeighbour)
    ensures peer in markedAfter
  {
    UnvisitedReachSet(g, marked, peer);
    ReachesSelf(g, peer);
    ReachSetClosed(g, peer);
    ReachSetDisjoint(g, marked, peer);
    ReachedFromOneMore(g, roots, marked, peer);
    PairwiseUnreachableOneMore(g, marked, roots, peer);
    ListOfNewRoot(g, peer, foundPeers, appendNeighbour);
  }

  lemma ReachSetDisjoint(g: Adjacency, marked: set<EdgePeer>, peer: EdgePeer)
    requires Symmetric(g) && Closed(g, marked) && peer !in marked
    ensures ReachSet(g, peer) !! marked
  {
    forall x | x in ReachSet(g, peer)
      ensures x !in marked
    {
      if x in marked {
        ReachesSymmetric(g, peer, x);
        ClosedContainsReachable(g, marked, x, peer);
      }
    }
  }

  /** When every node is marked, the roots represent the components. */
  lemma FoundAll(g: Adjacency, marked: set<EdgePeer>, roots: seq<EdgePeer>, components: seq<seq<EdgePeer>>, appendNeighbour: bool)
    requires Symmetric(g) && FoundSoFar(g, marked, roots, components, appendNeighbour)
    requires g.Keys <= marked && forall i :: 0 <= i < |roots| ==> roots[i] in g
    ensures forall i :: 0 <= i < |components| ==> |components[i]| > 0
    ensures Roots(components) == roots && Representatives(g, roots)
    ensures |components| == |Components(g)|
    ensures |components| > 1 <==> !Connected(g)
  {
    assert ReachedFrom(g, roots, g.Keys);
    RepresentativesHaveCount(g, roots);
    RootsOfLists(g, roots, components, appendNeighbour);
  }

  lemma RepresentativesHaveCount(g: Adjacency, roots: seq<EdgePeer>)
    requires Symmetric(g) && Representatives(g, roots)
    ensures |roots| == |Components(g)|
    ensures |roots| > 1 <==> !Connected(g)
  {
    RepresentativesCountComponents(g, roots);
    DisconnectedIff(g, roots);
  }

  lemma RootsOfLists(g: Adjacency, roots: seq<EdgePeer>, components: seq<seq<EdgePeer>>, appendNeighbour: bool)
    requires |roots| == |components|
    requires forall i :: 0 <= i < |components| ==> ListOfRoot(g, components[i], roots[i], appendNeighbour)
    ensures forall i :: 0 <= i < |components| ==> |components[i]| > 0
    ensures Roots(components) == roots
  {
  }

  lemma ListOfNewRoot(g: Adjacency, peer: EdgePeer, foundPeers: seq<EdgePeer>, appendNeighbour: bool)
    requires peer in g && Distinct(foundPeers)
    requires !appendNeighbour ==> foundPeers == []
    requires appendNeighbour ==> Elements(foundPeers) == ReachSet(g, peer) - {peer}
    ensures ListOfRoot(g, foundPeers + [peer], peer, appendNeighbour)
  {
    ReachesSelf(g, peer);
    if appendNeighbour {
      DistinctJoin(foundPeers, [], peer);
      assert foundPeers + [] + [peer] == foundPeers + [peer];
    }
  }

  /** A nested search from a neighbour stays within the nodes the outer search may mark, and closes them. */
  lemma ExploredWithin(g: Adjacency, m0: set<EdgePeer>, m: set<EdgePeer>, peer: EdgePeer, neighbour: EdgePeer)
    requires m0 <= m && peer in g && peer in m && peer !in m0
    requires Edge(g, peer, neighbour) && neighbour !in m
    ensures neighbour in ReachSet(Unvisited(g, m), neighbour)
    ensures ReachSet(Unvisited(g, m), neighbour) <= ReachSet(Unvisited(g, m0), peer)
    ensures forall x, y :: x in ReachSet(Unvisited(g, m), neighbour) && Edge(Unvisited(g, m0), x, y) ==>
              y in m + ReachSet(Unvisited(g, m), neighbour)
  {
    var w, inner := Unvisited(g, m0), Unvisited(g, m);
    ReachesSelf(inner, neighbour);
    ReachSetClosed(inner, neighbour);
    EdgeReaches(w, peer, neighbour);
    forall x | x in ReachSet(inner, neighbour)
      ensures Reaches(w, peer, x)
    {
      ReachesMonotone(inner, w, neighbour, x);
      ReachesTransitive(w, peer, neighbour, x);
    }
    forall x, y | x in ReachSet(inner, neighbour) && Edge(w, x, y) && y !in m
      ensures y in ReachSet(inner, neighbour)
    {
      assert Edge(inner, x, y);
    }
  }

  /** A node outside the closed set of visited nodes is unrelated to every earlier root. */
  lemma NewRoot(g: Adjacency, marked: set<EdgePeer>, roots: seq<EdgePeer>, peer: EdgePeer)
    requires Symmetric(g) && Closed(g, marked) && peer !in marked
    requires forall i :: 0 <= i < |roots| ==> roots[i] in marked
    ensures forall i :: 0 <= i < |roots| ==> !Reaches(g, roots[i], peer) && !Reaches(g, peer, roots[i])
  {
    forall i | 0 <= i < |roots|
      ensures !Reaches(g, roots[i], peer) && !Reaches(g, peer, roots[i])
    {
      if Reaches(g, peer, roots[i]) {
        ReachesSymmetric(g, peer, roots[i]);
      }
      if Reaches(g, roots[i], peer) {
        ClosedContainsReachable(g, marked, roots[i], peer);
      }
    }
  }

  // ----- What the lists hold -----

  ghost predicate ListsOfRoots(g: Adjacency, roots: seq<EdgePeer>, components: seq<seq<EdgePeer>>, appendNeighbour: bool) {
    && |components| == |roots|
    && forall i :: 0 <= i < |components| ==> ListOfRoot(g, components[i], roots[i], appendNeighbour)
  }

  /** With the correction every node is in exactly one list, and a list is one reachability class. */
  lemma CorrectedListsPartition(g: Adjacency, roots: seq<EdgePeer>, components: seq<seq<EdgePeer>>, u: EdgePeer)
    requires Symmetric(g) && Representatives(g, roots) && ListsOfRoots(g, roots, components, true) && u in g
    ensures exists i :: 0 <= i < |components| && u in components[i]
    ensures forall i, j :: 0 <= i < |components| && 0 <= j < |components| && u in components[i] && u in components[j] ==> i == j
    ensures forall i, v :: 0 <= i < |components| && u in components[i] ==> (v in components[i] <==> v in g && Reaches(g, u, v))
  {
    assert HasRoot(g, roots, u);
    var i :| 0 <= i < |roots| && Reaches(g, roots[i], u);
    assert u in Elements(components[i]);
    forall i, j | 0 <= i < |components| && 0 <= j < |components| && u in components[i] && u in components[j]
      ensures i == j
    {
      assert u in Elements(components[i]) && u in Elements(components[j]);
      ReachesSymmetric(g, roots[j], u);
      ReachesTransitive(g, roots[i], u, roots[j]);
    }
    forall i, v | 0 <= i < |components| && u in components[i]
      ensures v in components[i] <==> v in g && Reaches(g, u, v)
    {
      assert u in Elements(components[i]);
      SameReachSet(g, roots[i], u);
      assert v in components[i] <==> v in Elements(components[i]);
    }
  }

  /** As written the lists cover every node exactly when no edge joins two different nodes. */
  lemma WrittenListsCoverIff(g: Adjacency, roots: seq<EdgePeer>, components: seq<seq<EdgePeer>>)
    requires Symmetric(g) && Representatives(g, roots) && ListsOfRoots(g, roots, components, false)
    ensures (forall u :: u in g ==> u in roots) <==> forall u, v :: Edge(g, u, v) ==> u == v
    ensures forall i :: 0 <= i < |components| ==> components[i] == [roots[i]]
  {
    if forall u :: u in g ==> u in roots {
      forall u, v | Edge(g, u, v)
        ensures u == v
      {
        var i :| 0 <= i < |roots| && roots[i] == u;
        var j :| 0 <= j < |roots| && roots[j] == v;
        EdgeReaches(g, u, v);
      }
    }
    if forall u, v :: Edge(g, u, v) ==> u == v {
      forall u | u in g
        ensures u in roots
      {
        assert HasRoot(g, roots, u);
        var i :| 0 <= i < |roots| && Reaches(g, roots[i], u);
        ClosedContainsReachable(g, {roots[i]}, roots[i], u);
      }
    }
  }
}
