/**
 What one attempt to link two peers does to the overlay, and how the component count of
 the symmetrised overlay moves when consecutive components are linked.
 */
module Unification {
  import opened EdgePeers
  import opened Reachability
  import opened OverlayGraph

  /** Which of the two simultaneous `AddNeighbour` calls the registry saw finish first. */
  datatype Observed = FirstDone(ok: bool) | SecondDone(ok: bool) | TimedOut

  /** The outcome of one attempt: which calls took effect at their peer, and what was observed. */
  datatype Attempt = Attempt(firstTook: bool, secondTook: bool, observed: Observed) {
    predicate TookEffect() {
      firstTook || secondTook
    }

    predicate Reported() {
      observed == FirstDone(true) || observed == SecondDone(true)
    }

    /** A call that returned without error did add the neighbour. */
    predicate Honest() {
      (observed == FirstDone(true) ==> firstTook) && (observed == SecondDone(true) ==> secondTook)
    }
  }

  type Answers = map<(EdgePeer, EdgePeer), Attempt>

  function AttemptOf(answers: Answers, a: EdgePeer, b: EdgePeer): Attempt {
    if (a, b) in answers then answers[(a, b)] else Attempt(false, false, TimedOut)
  }

  ghost predicate AllHonest(answers: Answers) {
    forall a, b :: AttemptOf(answers, a, b).Honest()
  }

  /** What is asked of the answers: a call seen to succeed took effect, and nothing else. */
  lemma AllHonestIff(answers: Answers)
    ensures AllHonest(answers) <==>
              forall k :: k in answers ==>
                (answers[k].observed == FirstDone(true) ==> answers[k].firstTook) &&
                (answers[k].observed == SecondDone(true) ==> answers[k].secondTook)
  {
    if AllHonest(answers) {
      forall k | k in answers
        ensures answers[k].Honest()
      {
        assert AttemptOf(answers, k.0, k.1).Honest() && (k.0, k.1) == k;
      }
    }
  }

  /** `AddNeighbour(peer)` executed at peer `at`; a peer outside the overlay does nothing. */
  function WithNeighbour(neighbours: Adjacency, at: EdgePeer, peer: EdgePeer): Adjacency {
    if at in neighbours then neighbours[at := neighbours[at] + {peer}] else neighbours
  }

  /** The peers' neighbour sets after one attempt. */
  function AfterAttempt(neighbours: Adjacency, a: EdgePeer, b: EdgePeer, t: Attempt): Adjacency {
    var n := if t.firstTook then WithNeighbour(neighbours, a, b) else neighbours;
    if t.secondTook then WithNeighbour(n, b, a) else n
  }

  /** The peers' neighbour sets after a sequence of attempts. */
  function Replay(neighbours: Adjacency, attempts: seq<(EdgePeer, EdgePeer)>, answers: Answers): (r: Adjacency)
    ensures r.Keys == neighbours.Keys
  {
    if attempts == [] then neighbours
    else
      var last := attempts[|attempts| - 1];
      AfterAttempt(Replay(neighbours, attempts[..|attempts| - 1], answers), last.0, last.1,
                   AttemptOf(answers, last.0, last.1))
  }

  /** One list of attempts for each pair of consecutive components. */
  type Rounds = seq<seq<(EdgePeer, EdgePeer)>>

  function ReplayAll(neighbours: Adjacency, rounds: Rounds, answers: Answers): (r: Adjacency)
    ensures r.Keys == neighbours.Keys
  {
    if rounds == [] then neighbours
    else Replay(ReplayAll(neighbours, rounds[..|rounds| - 1], answers), rounds[|rounds| - 1], answers)
  }

  /** At least one `AddNeighbour` call of these attempts took effect. */
  predicate LinkedBy(attempts: seq<(EdgePeer, EdgePeer)>, answers: Answers) {
    exists i :: 0 <= i < |attempts| && AttemptOf(answers, attempts[i].0, attempts[i].1).TookEffect()
  }

  function LinkedFlags(rounds: Rounds, answers: Answers): (r: seq<bool>)
    ensures |r| == |rounds|
  {
    seq(|rounds|, i requires 0 <= i < |rounds| => LinkedBy(rounds[i], answers))
  }

  ghost predicate Between(attempts: seq<(EdgePeer, EdgePeer)>, first: set<EdgePeer>, second: set<EdgePeer>) {
    forall i :: 0 <= i < |attempts| ==> attempts[i].0 in first && attempts[i].1 in second
  }

  /** One of the two peers lists the other. */
  predicate EdgeRecorded(neighbours: Adjacency, a: EdgePeer, b: EdgePeer) {
    (a in neighbours && b in neighbours[a]) || (b in neighbours && a in neighbours[b])
  }

  /** An attempt that took effect left an edge behind, whatever was attempted afterwards. */
  lemma {:induction false} EffectIsRecorded(neighbours: Adjacency, attempts: seq<(EdgePeer, EdgePeer)>, answers: Answers, i: nat)
    requires i < |attempts| && AttemptOf(answers, attempts[i].0, attempts[i].1).TookEffect()
    requires attempts[i].0 in neighbours && attempts[i].1 in neighbours
    ensures EdgeRecorded(Replay(neighbours, attempts, answers), attempts[i].0, attempts[i].1)
    decreases |attempts|
  {
    if i < |attempts| - 1 {
      EffectIsRecorded(neighbours, attempts[..|attempts| - 1], answers, i);
    }
  }

  /** What the registry sees of the peers' own neighbour sets, made symmetric. */
  function Topology(neighbours: Adjacency, nodes: set<EdgePeer>, alive: set<EdgePeer>): Adjacency
    requires nodes <= neighbours.Keys
  {
    SymmetricClosure(map p | p in nodes :: neighbours[p] * alive)
  }

  /** Who is adjacent in the topology. */
  lemma TopologyEdges(neighbours: Adjacency, nodes: set<EdgePeer>, alive: set<EdgePeer>, u: EdgePeer, v: EdgePeer)
    requires nodes <= neighbours.Keys && nodes <= alive && u in nodes
    ensures v in Topology(neighbours, nodes, alive)[u] <==>
              (v in neighbours[u] && v in alive) || (v in nodes && u in neighbours[v])
  {
  }

  lemma CallAddsEdge(neighbours: Adjacency, nodes: set<EdgePeer>, alive: set<EdgePeer>, a: EdgePeer, b: EdgePeer)
    requires a in nodes && b in nodes && nodes <= neighbours.Keys && nodes <= alive
    ensures Topology(WithNeighbour(neighbours, a, b), nodes, alive) == AddEdge(Topology(neighbours, nodes, alive), a, b)
    ensures Topology(WithNeighbour(neighbours, a, b), nodes, alive) == AddEdge(Topology(neighbours, nodes, alive), b, a)
  {
    var after := WithNeighbour(neighbours, a, b);
    var g := Topology(neighbours, nodes, alive);
    var l, r := Topology(after, nodes, alive), AddEdge(g, a, b);
    forall u | u in nodes
      ensures l[u] == r[u]
    {
      forall v
        ensures v in l[u] <==> v in r[u]
      {
        TopologyEdges(neighbours, nodes, alive, u, v);
        TopologyEdges(after, nodes, alive, u, v);
      }
    }
    AddEdgeEitherWay(g, a, b);
  }

  lemma AddEdgeEitherWay(g: Adjacency, a: EdgePeer, b: EdgePeer)
    requires a in g && b in g
    ensures AddEdge(g, a, b) == AddEdge(g, b, a)
  {
  }

  /** An attempt adds the undirected edge exactly when one of its calls took effect. */
  lemma AttemptAddsEdge(neighbours: Adjacency, nodes: set<EdgePeer>, alive: set<EdgePeer>,
                        a: EdgePeer, b: EdgePeer, t: Attempt)
    requires a in nodes && b in nodes && nodes <= neighbours.Keys && nodes <= alive
    ensures Topology(AfterAttempt(neighbours, a, b, t), nodes, alive) ==
            if t.TookEffect() then AddEdge(Topology(neighbours, nodes, alive), a, b)
            else Topology(neighbours, nodes, alive)
  {
    var g := Topology(neighbours, nodes, alive);
    var n := if t.firstTook then WithNeighbour(neighbours, a, b) else neighbours;
    CallAddsEdge(neighbours, nodes, alive, a, b);
    if t.secondTook {
      CallAddsEdge(n, nodes, alive, b, a);
      if t.firstTook {
        var e := AddEdge(g, a, b);
        assert e == AddEdge(e, a, b) by {
          assert e[a] + {b} == e[a] && e[b] + {a} == e[b];
        }
      }
    }
  }

  /** `after` is `before` with the components of `u` and `v` made one and all others kept. */
  ghost predicate Joined(before: Adjacency, after: Adjacency, u: EdgePeer, v: EdgePeer) {
    && after.Keys == before.Keys
    && Symmetric(after)
    && forall x :: x in before ==>
         ReachSet(after, x) == if x in ReachSet(before, u) + ReachSet(before, v)
                               then ReachSet(before, u) + ReachSet(before, v)
                               else ReachSet(before, x)
  }

  lemma FirstLinkJoins(g: Adjacency, u: EdgePeer, v: EdgePeer, a: EdgePeer, b: EdgePeer)
    requires Symmetric(g) && u in g && v in g && Reaches(g, u, a) && Reaches(g, v, b)
    ensures a in g && b in g
    ensures Joined(g, AddEdge(g, a, b), u, v)
  {
    ReachesOnlyNodes(g, u, a);
    ReachesOnlyNodes(g, v, b);
    AddEdgeEdges(g, a, b);
    SameReachSet(g, u, a);
    SameReachSet(g, v, b);
    forall x | x in g
      ensures x in ReachSet(g, u) + ReachSet(g, v) <==> Reaches(g, x, a) || Reaches(g, x, b)
    {
      ReachesBothWays(g, x, a);
      ReachesBothWays(g, x, b);
    }
    forall x | x in g
      ensures ReachSet(AddEdge(g, a, b), x) == if x in ReachSet(g, u) + ReachSet(g, v)
                                                then ReachSet(g, u) + ReachSet(g, v) else ReachSet(g, x)
    {
      AddEdgeReachSet(g, a, b, x);
    }
  }

  lemma ReachesBothWays(g: Adjacency, x: EdgePeer, y: EdgePeer)
    requires Symmetric(g)
    ensures Reaches(g, x, y) <==> Reaches(g, y, x)
  {
    if Reaches(g, x, y) {
      ReachesSymmetric(g, x, y);
    }
    if Reaches(g, y, x) {
      ReachesSymmetric(g, y, x);
    }
  }

  lemma FurtherLinksKeepJoined(before: Adjacency, g: Adjacency, u: EdgePeer, v: EdgePeer, a: EdgePeer, b: EdgePeer)
    requires Joined(before, g, u, v)
    requires a in before && a in ReachSet(before, u) + ReachSet(before, v)
    requires b in before && b in ReachSet(before, u) + ReachSet(before, v)
    ensures Joined(before, AddEdge(g, a, b), u, v)
  {
    assert b in ReachSet(g, a);
    AddEdgeInside(g, a, b);
    AddEdgeEdges(g, a, b);
  }

  /** Attempts between two components join them exactly when one of the calls took effect. */
  lemma {:induction false} AttemptsJoin(neighbours: Adjacency, nodes: set<EdgePeer>, alive: set<EdgePeer>,
                                        u: EdgePeer, v: EdgePeer, attempts: seq<(EdgePeer, EdgePeer)>, answers: Answers)
    requires nodes <= neighbours.Keys && nodes <= alive && u in nodes && v in nodes
    requires var g := Topology(neighbours, nodes, alive); Between(attempts, ReachSet(g, u), ReachSet(g, v))
    ensures var g := Topology(neighbours, nodes, alive);
            var h := Topology(Replay(neighbours, attempts, answers), nodes, alive);
            if LinkedBy(attempts, answers) then Joined(g, h, u, v) else h == g
  {
    var g := Topology(neighbours, nodes, alive);
    if attempts != [] {
      var n := |attempts| - 1;
      var (a, b) := attempts[n];
      var before := attempts[..n];
      var mid := Replay(neighbours, before, answers);
      assert forall i :: 0 <= i < n ==> before[i] == attempts[i];
      AttemptsJoin(neighbours, nodes, alive, u, v, before, answers);
      AttemptAddsEdge(mid, nodes, alive, a, b, AttemptOf(answers, a, b));
      if LinkedBy(before, answers) {
        FurtherLinksKeepJoined(g, Topology(mid, nodes, alive), u, v, a, b);
      } else {
        FirstLinkJoins(g, u, v, a, b);
      }
      LinkedByLast(attempts, answers);
    }
  }

  lemma LinkedByLast(attempts: seq<(EdgePeer, EdgePeer)>, answers: Answers)
    requires attempts != []
    ensures var n := |attempts| - 1;
            LinkedBy(attempts, answers) <==>
              LinkedBy(attempts[..n], answers) || AttemptOf(answers, attempts[n].0, attempts[n].1).TookEffect()
  {
    var before := attempts[..|attempts| - 1];
    if i :| 0 <= i < |attempts| && AttemptOf(answers, attempts[i].0, attempts[i].1).TookEffect() {
      if i < |before| {
        assert before[i] == attempts[i];
      }
    }
    if i :| 0 <= i < |before| && AttemptOf(answers, before[i].0, before[i].1).TookEffect() {
      assert before[i] == attempts[i];
    }
  }

  /** Joining two different components takes exactly one from the count. */
  lemma JoinedCount(before: Adjacency, after: Adjacency, u: EdgePeer, v: EdgePeer)
    requires Symmetric(before) && u in before && v in before && !Reaches(before, u, v)
    requires Joined(before, after, u, v)
    ensures |Components(after)| == |Components(before)| - 1
    ensures Reaches(after, u, v)
  {
    var h := AddEdge(before, u, v);
    ReachesSelf(before, u);
    ReachesSelf(before, v);
    FirstLinkJoins(before, u, v, u, v);
    AddEdgeAcross(before, u, v);
    assert forall x :: x in before ==> ReachSet(after, x) == ReachSet(h, x);
    assert Components(after) == Components(h);
    assert v in ReachSet(after, u);
  }

  function CountTrue(s: seq<bool>): nat {
    if s == [] then 0 else CountTrue(s[..|s| - 1]) + if s[|s| - 1] then 1 else 0
  }

  lemma {:induction false} AllTrueCount(s: seq<bool>)
    ensures CountTrue(s) <= |s|
    ensures CountTrue(s) == |s| <==> forall i :: 0 <= i < |s| ==> s[i]
  {
    if s != [] {
      AllTrueCount(s[..|s| - 1]);
    }
  }

  /** Connected means at most one component. */
  lemma ConnectedIffOneComponent(g: Adjacency)
    requires Symmetric(g)
    ensures |Components(g)| <= 1 ==> Connected(g)
    ensures Connected(g) ==> |Components(g)| <= 1
  {
    if |Components(g)| <= 1 {
      forall u, v | u in g && v in g
        ensures Reaches(g, u, v)
      {
        ReachesSelf(g, v);
        assert ReachSet(g, u) in Components(g) && ReachSet(g, v) in Components(g);
        AtMostOneElement(Components(g), ReachSet(g, u), ReachSet(g, v));
        assert v in ReachSet(g, u);
      }
    }
    if Connected(g) && g.Keys != {} {
      var u :| u in g;
      assert forall v :: v in g ==> ReachSet(g, v) == g.Keys;
      assert Components(g) == {g.Keys};
    }
  }

  lemma AtMostOneElement<T>(s: set<T>, a: T, b: T)
    requires |s| <= 1 && a in s && b in s
    ensures a == b
  {
    assert |s - {a}| == |s| - 1;
    assert s - {a} == {};
  }

  // ----- The chain of consecutive components -----

  /** No node loses a node it reached. */
  ghost predicate KeepsReach(g: Adjacency, h: Adjacency) {
    g.Keys == h.Keys && forall x :: x in g ==> ReachSet(g, x) <= ReachSet(h, x)
  }

  ghost predicate LinkedPairs(g: Adjacency, roots: seq<EdgePeer>, linked: seq<bool>) {
    |linked| < |roots| && forall i {:trigger linked[i]} :: 0 <= i < |linked| ==> (linked[i] <==> Reaches(g, roots[i], roots[i + 1]))
  }

  ghost predicate Untouched(g0: Adjacency, g: Adjacency, roots: seq<EdgePeer>, from: nat) {
    forall j :: from <= j < |roots| ==> ReachSet(g, roots[j]) == ReachSet(g0, roots[j])
  }

  /** The first `|linked|` pairs are handled; the components after them are untouched. */
  ghost predicate ChainState(g0: Adjacency, g: Adjacency, roots: seq<EdgePeer>, linked: seq<bool>) {
    && Symmetric(g)
    && KeepsReach(g0, g)
    && LinkedPairs(g, roots, linked)
    && Untouched(g0, g, roots, |linked| + 1)
    && |Components(g)| == |Components(g0)| - CountTrue(linked)
  }

  lemma ChainStart(g0: Adjacency, roots: seq<EdgePeer>)
    requires Symmetric(g0) && |roots| > 0
    ensures ChainState(g0, g0, roots, [])
  {
  }

  /** An untouched component still reaches none of the other roots. */
  lemma UntouchedIsApart(g0: Adjacency, g: Adjacency, roots: seq<EdgePeer>, i: nat, j: nat)
    requires Symmetric(g) && ApartRoots(g0, roots) && g.Keys == g0.Keys
    requires i < |roots| && j < |roots| && i != j
    requires ReachSet(g, roots[j]) == ReachSet(g0, roots[j])
    ensures !Reaches(g, roots[i], roots[j]) && !Reaches(g, roots[j], roots[i])
  {
    assert !Reaches(g0, roots[j], roots[i]);
    assert roots[i] !in ReachSet(g, roots[j]);
    ReachesBothWays(g, roots[i], roots[j]);
  }

  lemma JoinedKeepsReach(g: Adjacency, h: Adjacency, u: EdgePeer, v: EdgePeer)
    requires Symmetric(g) && Joined(g, h, u, v)
    ensures KeepsReach(g, h)
  {
    forall x, y | x in g && y in ReachSet(g, x)
      ensures y in ReachSet(h, x)
    {
      if x in ReachSet(g, u) {
        ReachesTransitive(g, u, x, y);
      } else if x in ReachSet(g, v) {
        ReachesTransitive(g, v, x, y);
      }
    }
  }

  /** Joining `u` and `v` cannot connect two nodes that are both apart from `v`. */
  lemma JoinedElsewhere(g: Adjacency, h: Adjacency, u: EdgePeer, v: EdgePeer, a: EdgePeer, b: EdgePeer)
    requires Symmetric(g) && Joined(g, h, u, v) && a in g && b in g
    requires !Reaches(g, v, a) && !Reaches(g, v, b)
    ensures Reaches(h, a, b) <==> Reaches(g, a, b)
  {
    assert b in ReachSet(h, a) <==> Reaches(h, a, b);
    assert b in ReachSet(g, a) <==> Reaches(g, a, b);
    if Reaches(g, u, a) {
      SameReachSet(g, u, a);
    }
  }

  lemma ChainCount(g0: Adjacency, g: Adjacency, h: Adjacency, u: EdgePeer, v: EdgePeer, linked: seq<bool>, took: bool)
    requires Symmetric(g) && u in g && v in g && !Reaches(g, u, v)
    requires |Components(g)| == |Components(g0)| - CountTrue(linked)
    requires if took then Joined(g, h, u, v) else h == g
    ensures |Components(h)| == |Components(g0)| - CountTrue(linked + [took])
  {
    assert (linked + [took])[..|linked|] == linked;
    if took {
      JoinedCount(g, h, u, v);
    }
  }

  lemma EarlierPairKept(g0: Adjacency, g: Adjacency, h: Adjacency, roots: seq<EdgePeer>, n: nat, i: nat)
    requires Symmetric(g) && ApartRoots(g0, roots) && g.Keys == g0.Keys
    requires i < n && n + 1 < |roots| && Joined(g, h, roots[n], roots[n + 1])
    requires ReachSet(g, roots[n + 1]) == ReachSet(g0, roots[n + 1])
    ensures Reaches(h, roots[i], roots[i + 1]) <==> Reaches(g, roots[i], roots[i + 1])
  {
    UntouchedIsApart(g0, g, roots, i, n + 1);
    UntouchedIsApart(g0, g, roots, i + 1, n + 1);
    JoinedElsewhere(g, h, roots[n], roots[n + 1], roots[i], roots[i + 1]);
  }

  lemma LaterRootKept(g0: Adjacency, g: Adjacency, h: Adjacency, roots: seq<EdgePeer>, n: nat, j: nat)
    requires Symmetric(g) && ApartRoots(g0, roots) && g.Keys == g0.Keys
    requires n + 1 < j < |roots| && Joined(g, h, roots[n], roots[n + 1])
    requires ReachSet(g, roots[j]) == ReachSet(g0, roots[j])
    ensures ReachSet(h, roots[j]) == ReachSet(g0, roots[j])
  {
    UntouchedIsApart(g0, g, roots, n, j);
    UntouchedIsApart(g0, g, roots, n + 1, j);
  }

  lemma ChainLinks(g0: Adjacency, g: Adjacency, h: Adjacency, roots: seq<EdgePeer>, linked: seq<bool>)
    requires Symmetric(g) && ApartRoots(g0, roots) && g.Keys == g0.Keys
    requires LinkedPairs(g, roots, linked) && Untouched(g0, g, roots, |linked| + 1)
    requires |linked| + 1 < |roots| && Joined(g, h, roots[|linked|], roots[|linked| + 1])
    ensures LinkedPairs(h, roots, linked + [true])
  {
    var n := |linked|;
    UntouchedIsApart(g0, g, roots, n, n + 1);
    JoinedCount(g, h, roots[n], roots[n + 1]);
    forall i | 0 <= i < n
      ensures linked[i] <==> Reaches(h, roots[i], roots[i + 1])
    {
      EarlierPairKept(g0, g, h, roots, n, i);
    }
  }

  lemma ChainStep(g0: Adjacency, g: Adjacency, h: Adjacency, roots: seq<EdgePeer>, linked: seq<bool>, took: bool,
                  u: EdgePeer, v: EdgePeer)
    requires Symmetric(g0) && ApartRoots(g0, roots) && ChainState(g0, g, roots, linked)
    requires |linked| + 1 < |roots| && u == roots[|linked|] && v == roots[|linked| + 1]
    requires if took then Joined(g, h, u, v) else h == g
    ensures ChainState(g0, h, roots, linked + [took])
  {
    var n := |linked|;
    UntouchedIsApart(g0, g, roots, n, n + 1);
    ChainCount(g0, g, h, roots[n], roots[n + 1], linked, took);
    if took {
      ChainLinks(g0, g, h, roots, linked);
      forall j | n + 1 < j < |roots|
        ensures ReachSet(h, roots[j]) == ReachSet(g0, roots[j])
      {
        LaterRootKept(g0, g, h, roots, n, j);
      }
      JoinedKeepsReach(g, h, roots[n], roots[n + 1]);
    }
  }

  // ----- A whole round of unification -----

  /** Round `i` holds attempts between component `i` and component `i + 1`. */
  ghost predicate RoundsBetween(g: Adjacency, roots: seq<EdgePeer>, rounds: Rounds) {
    && |rounds| < |roots|
    && forall i {:trigger rounds[i]} :: 0 <= i < |rounds| ==> Between(rounds[i], ReachSet(g, roots[i]), ReachSet(g, roots[i + 1]))
  }

  lemma RoundStep(g0: Adjacency, neighbours: Adjacency, nodes: set<EdgePeer>, alive: set<EdgePeer>, roots: seq<EdgePeer>,
                  flags: seq<bool>, round: seq<(EdgePeer, EdgePeer)>, answers: Answers)
    requires Symmetric(g0) && nodes <= neighbours.Keys && nodes <= alive
    requires ApartRoots(g0, roots) && |flags| + 1 < |roots|
    requires ChainState(g0, Topology(neighbours, nodes, alive), roots, flags)
    requires Between(round, ReachSet(g0, roots[|flags|]), ReachSet(g0, roots[|flags| + 1]))
    ensures ChainState(g0, Topology(Replay(neighbours, round, answers), nodes, alive), roots, flags + [LinkedBy(round, answers)])
  {
    var u, v := roots[|flags|], roots[|flags| + 1];
    var g, h := Topology(neighbours, nodes, alive), Topology(Replay(neighbours, round, answers), nodes, alive);
    assert ReachSet(g0, u) <= ReachSet(g, u);
    AttemptsJoin(neighbours, nodes, alive, u, v, round, answers);
    ChainStep(g0, g, h, roots, flags, LinkedBy(round, answers), u, v);
  }

  lemma LinkedFlagsLast(rounds: Rounds, answers: Answers)
    requires rounds != []
    ensures var n := |rounds| - 1;
            && LinkedFlags(rounds, answers)[..n] == LinkedFlags(rounds[..n], answers)
            && LinkedFlags(rounds, answers) == LinkedFlags(rounds[..n], answers) + [LinkedBy(rounds[n], answers)]
  {
  }

  /** Unification takes from the component count exactly the number of linked pairs. */
  lemma {:induction false} RoundsChain(neighbours: Adjacency, after: Adjacency, nodes: set<EdgePeer>, alive: set<EdgePeer>,
                                       roots: seq<EdgePeer>, rounds: Rounds, flags: seq<bool>, answers: Answers)
    requires nodes <= neighbours.Keys && nodes <= alive
    requires ApartRoots(Topology(neighbours, nodes, alive), roots)
    requires RoundsBetween(Topology(neighbours, nodes, alive), roots, rounds)
    requires after == ReplayAll(neighbours, rounds, answers) && flags == LinkedFlags(rounds, answers)
    ensures ChainState(Topology(neighbours, nodes, alive), Topology(after, nodes, alive), roots, flags)
  {
    var g0 := Topology(neighbours, nodes, alive);
    if rounds == [] {
      ChainStart(g0, roots);
    } else {
      var n := |rounds| - 1;
      var mid := ReplayAll(neighbours, rounds[..n], answers);
      LinkedFlagsLast(rounds, answers);
      RoundsChain(neighbours, mid, nodes, alive, roots, rounds[..n], flags[..n], answers);
      RoundStep(g0, mid, nodes, alive, roots, flags[..n], rounds[n], answers);
    }
  }

  /** A round of unification leaves one component exactly when every consecutive pair was linked. */
  lemma RoundsConnect(neighbours: Adjacency, after: Adjacency, nodes: set<EdgePeer>, alive: set<EdgePeer>,
                      roots: seq<EdgePeer>, rounds: Rounds, answers: Answers)
    requires nodes <= neighbours.Keys && nodes <= alive
    requires Representatives(Topology(neighbours, nodes, alive), roots)
    requires RoundsBetween(Topology(neighbours, nodes, alive), roots, rounds) && |rounds| == |roots| - 1
    requires after == ReplayAll(neighbours, rounds, answers)
    ensures |Components(Topology(after, nodes, alive))| == |roots| - CountTrue(LinkedFlags(rounds, answers))
    ensures |Components(Topology(after, nodes, alive))| == 1 <==>
              forall i :: 0 <= i < |rounds| ==> LinkedBy(rounds[i], answers)
  {
    var flags := LinkedFlags(rounds, answers);
    RoundsCount(neighbours, after, nodes, alive, roots, rounds, flags, answers);
    AllTrueCount(flags);
    assert forall i :: 0 <= i < |rounds| ==> flags[i] == LinkedBy(rounds[i], answers);
  }

  lemma RoundsCount(neighbours: Adjacency, after: Adjacency, nodes: set<EdgePeer>, alive: set<EdgePeer>,
                    roots: seq<EdgePeer>, rounds: Rounds, flags: seq<bool>, answers: Answers)
    requires nodes <= neighbours.Keys && nodes <= alive
    requires Representatives(Topology(neighbours, nodes, alive), roots)
    requires RoundsBetween(Topology(neighbours, nodes, alive), roots, rounds)
    requires after == ReplayAll(neighbours, rounds, answers) && flags == LinkedFlags(rounds, answers)
    ensures |Components(Topology(after, nodes, alive))| == |roots| - CountTrue(flags)
  {
    RepresentativesHaveCount(Topology(neighbours, nodes, alive), roots);
    RoundsChain(neighbours, after, nodes, alive, roots, rounds, flags, answers);
  }
}
