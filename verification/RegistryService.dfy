/**
 The registry: membership with heartbeat expiry, and the periodic repair of network
 partitions.  Every handler runs under one lock and is modelled as one atomic step.
 */
module RegistryService {
  import opened EdgePeers
  import opened Reachability
  import opened OverlayGraph
  import opened HeartbeatExpiry
  import opened Unification

  /** An open RPC connection to a peer. */
  type Connection = nat

  /** The peers' own neighbour sets, which only the peers themselves hold. */
  class Overlay {
    var neighbours: Adjacency

    constructor (neighbours: Adjacency)
      ensures this.neighbours == neighbours
    {
      this.neighbours := neighbours;
    }
  }

  /** Some attempt between the two components would be seen to succeed. */
  ghost predicate SomeReported(first: seq<EdgePeer>, second: seq<EdgePeer>, answers: Answers) {
    exists a, b :: a in first && b in second && AttemptOf(answers, a, b).Reported()
  }

  /** An attempt is seen to succeed when the call that finishes first does. */
  lemma SomeReportedIff(first: seq<EdgePeer>, second: seq<EdgePeer>, answers: Answers)
    ensures SomeReported(first, second, answers) <==>
              exists k :: k in answers && k.0 in first && k.1 in second && answers[k].observed in {FirstDone(true), SecondDone(true)}
  {
    if a, b :| a in first && b in second && AttemptOf(answers, a, b).Reported() {
      assert (a, b) in answers && answers[(a, b)].observed in {FirstDone(true), SecondDone(true)};
    }
    if k :| k in answers && k.0 in first && k.1 in second && answers[k].observed in {FirstDone(true), SecondDone(true)} {
      assert AttemptOf(answers, k.0, k.1).Reported() && (k.0, k.1) == k;
    }
  }

  lemma ReportedNext(a: EdgePeer, second: seq<EdgePeer>, j: nat, answers: Answers)
    requires j < |second|
    ensures SomeReported([a], second[..j + 1], answers) <==>
              SomeReported([a], second[..j], answers) || AttemptOf(answers, a, second[j]).Reported()
  {
    assert second[..j + 1] == second[..j] + [second[j]];
    assert a in [a] && second[j] in second[..j + 1];
  }

  lemma ReportedMore(first: seq<EdgePeer>, second: seq<EdgePeer>, i: nat, answers: Answers)
    requires i < |first|
    ensures SomeReported(first[..i + 1], second, answers) <==>
              SomeReported(first[..i], second, answers) || SomeReported([first[i]], second, answers)
  {
    assert first[..i + 1] == first[..i] + [first[i]];
  }

  /** The attempts `UnifyTwoComponents` may make between two components. */
  ghost predicate RoundOf(first: seq<EdgePeer>, second: seq<EdgePeer>, attempts: seq<(EdgePeer, EdgePeer)>, answers: Answers) {
    && Between(attempts, Elements(first), Elements(second))
    && (SomeReported(first, second, answers) ==> LinkedBy(attempts, answers))
    && (!SomeReported(first, second, answers) ==> forall a, b :: a in first && b in second ==> (a, b) in attempts)
    && (|first| == |second| == 1 ==> attempts == [(first[0], second[0])])
  }

  /** Every node of the graph answered, and answered truthfully. */
  ghost predicate Answered(neighbours: Adjacency, nodes: set<EdgePeer>, replies: map<EdgePeer, Reply>) {
    forall p :: p in nodes ==> p in neighbours && ReplyOf(replies, p) == Neighbours(neighbours[p])
  }

  lemma AnsweredIff(neighbours: Adjacency, connected: set<EdgePeer>, alive: set<EdgePeer>, replies: map<EdgePeer, Reply>)
    ensures Answered(neighbours, Responding(connected, alive, replies), replies) <==>
              forall p :: p in connected && p in alive && p in replies && replies[p] != NoReply ==>
                p in neighbours && replies[p] == Neighbours(neighbours[p])
  {
    if Answered(neighbours, Responding(connected, alive, replies), replies) {
      forall p | p in connected && p in alive && p in replies && replies[p] != NoReply
        ensures p in neighbours && replies[p] == Neighbours(neighbours[p])
      {
        assert p in Responding(connected, alive, replies);
      }
    }
  }

  lemma AnsweredTopology(neighbours: Adjacency, connected: set<EdgePeer>, alive: set<EdgePeer>, replies: map<EdgePeer, Reply>)
    requires Answered(neighbours, Responding(connected, alive, replies), replies)
    ensures !ListsFailedPeer(connected, alive, replies)
    ensures Responding(connected, alive, replies) <= neighbours.Keys
    ensures SymmetricClosure(Reported(connected, alive, replies)) ==
            Topology(neighbours, Responding(connected, alive, replies), alive)
  {
    var nodes := Responding(connected, alive, replies);
    assert Reported(connected, alive, replies) == map p | p in nodes :: neighbours[p] * alive;
    assert forall v :: v in connected && v in alive && ReplyOf(replies, v) == CallFailed ==> v in nodes;
  }

  /** The graph the registry builds is the topology of the relation reported to it. */
  lemma ReportedTopology(connected: set<EdgePeer>, alive: set<EdgePeer>, replies: map<EdgePeer, Reply>)
    ensures Reported(connected, alive, replies).Keys == Responding(connected, alive, replies)
    ensures SymmetricClosure(Reported(connected, alive, replies)) ==
            Topology(Reported(connected, alive, replies), Responding(connected, alive, replies), alive)
  {
    var seen, nodes := Reported(connected, alive, replies), Responding(connected, alive, replies);
    assert seen == map p | p in nodes :: seen[p] * alive;
  }

  /**
   What a repair round achieves: one list of attempts per pair of consecutive components,
   as many components fewer as pairs were linked, and a connected overlay exactly when
   every pair was.
   */
  ghost predicate Repaired(before: Adjacency, after: Adjacency, rounds: Rounds, answers: Answers) {
    && |rounds| == (if |Components(before)| > 1 then |Components(before)| - 1 else 0)
    && |Components(after)| == |Components(before)| - CountTrue(LinkedFlags(rounds, answers))
    && (Connected(after) <==> forall i :: 0 <= i < |rounds| ==> LinkedBy(rounds[i], answers))
  }

  /** If the graph is the topology of these neighbour sets, the rounds repair it. */
  ghost predicate RepairsFrom(neighbours: Adjacency, nodes: set<EdgePeer>, alive: set<EdgePeer>, g: Adjacency,
                              rounds: Rounds, answers: Answers)
  {
    nodes <= neighbours.Keys && g == Topology(neighbours, nodes, alive) ==>
      Repaired(g, Topology(ReplayAll(neighbours, rounds, answers), nodes, alive), rounds, answers)
  }

  /** When every round linked its pair, all peers that answered reach each other. */
  lemma AllLinkedReach(connected: set<EdgePeer>, alive: set<EdgePeer>, replies: map<EdgePeer, Reply>, rounds: Rounds, answers: Answers)
    requires var seen, nodes := Reported(connected, alive, replies), Responding(connected, alive, replies);
             seen.Keys == nodes && Repaired(Topology(seen, nodes, alive), Topology(ReplayAll(seen, rounds, answers), nodes, alive), rounds, answers)
    requires forall i :: 0 <= i < |rounds| ==> LinkedBy(rounds[i], answers)
    ensures var told := map p | p in connected && p in alive && p in replies && replies[p] != NoReply ::
                                match replies[p] case Neighbours(adjs) => adjs * alive case _ => {};
            var after := Topology(ReplayAll(told, rounds, answers), told.Keys, alive);
            forall a, b :: a in told && b in told ==> Reaches(after, a, b)
  {
    var told := map p | p in connected && p in alive && p in replies && replies[p] != NoReply ::
                        match replies[p] case Neighbours(adjs) => adjs * alive case _ => {};
    ToldIsReported(connected, alive, replies, told);
  }

  lemma ToldIsReported(connected: set<EdgePeer>, alive: set<EdgePeer>, replies: map<EdgePeer, Reply>, told: Adjacency)
    requires told == map p | p in connected && p in alive && p in replies && replies[p] != NoReply ::
                             match replies[p] case Neighbours(adjs) => adjs * alive case _ => {}
    ensures told == Reported(connected, alive, replies)
  {
    var seen := Reported(connected, alive, replies);
    assert seen.Keys == told.Keys;
    forall p | p in told
      ensures told[p] == seen[p]
    {
      assert ReplyOf(replies, p) == replies[p];
    }
  }

  lemma NothingToRepair(g: Adjacency, answers: Answers)
    requires Symmetric(g) && |Components(g)| <= 1
    ensures Repaired(g, g, [], answers)
  {
    ConnectedIffOneComponent(g);
  }

  lemma AttemptsBetweenComponents(g: Adjacency, roots: seq<EdgePeer>, components: seq<seq<EdgePeer>>, rounds: Rounds,
                                  answers: Answers, appendNeighbour: bool)
    requires |rounds| == |components| - 1 && |roots| == |components|
    requires forall i :: 0 <= i < |components| ==> roots[i] in g && ListOfRoot(g, components[i], roots[i], appendNeighbour)
    requires forall i {:trigger rounds[i]} :: 0 <= i < |rounds| ==> RoundOf(components[i], components[i + 1], rounds[i], answers)
    ensures RoundsBetween(g, roots, rounds)
  {
    forall i | 0 <= i < |components|
      ensures Elements(components[i]) <= ReachSet(g, roots[i])
    {
      ReachesSelf(g, roots[i]);
    }
  }

  lemma ListsHoldNodes(g: Adjacency, roots: seq<EdgePeer>, components: seq<seq<EdgePeer>>, appendNeighbour: bool)
    requires |roots| == |components|
    requires forall i :: 0 <= i < |components| ==> roots[i] in g && ListOfRoot(g, components[i], roots[i], appendNeighbour)
    ensures forall c, p :: c in components && p in c ==> p in g
  {
    forall i, p | 0 <= i < |components| && p in components[i]
      ensures p in g
    {
      assert p in Elements(components[i]);
    }
  }

  lemma RoundsRepair(n0: Adjacency, n1: Adjacency, nodes: set<EdgePeer>, alive: set<EdgePeer>,
                     roots: seq<EdgePeer>, rounds: Rounds, answers: Answers)
    requires nodes <= n0.Keys && nodes <= alive && n1 == ReplayAll(n0, rounds, answers)
    requires Representatives(Topology(n0, nodes, alive), roots) && |roots| > 1
    requires |rounds| == |roots| - 1 && RoundsBetween(Topology(n0, nodes, alive), roots, rounds)
    ensures Repaired(Topology(n0, nodes, alive), Topology(n1, nodes, alive), rounds, answers)
  {
    var after := Topology(n1, nodes, alive);
    RepresentativesHaveCount(Topology(n0, nodes, alive), roots);
    RoundsConnect(n0, n1, nodes, alive, roots, rounds, answers);
    AllTrueCount(LinkedFlags(rounds, answers));
    ConnectedIffOneComponent(after);
  }

  lemma RepairOutcome(n0: Adjacency, nodes: set<EdgePeer>, alive: set<EdgePeer>, g: Adjacency,
                      roots: seq<EdgePeer>, components: seq<seq<EdgePeer>>, rounds: Rounds, answers: Answers, appendNeighbour: bool)
    requires nodes <= alive && Symmetric(g) && Representatives(g, roots) && |roots| == |components| == |Components(g)|
    requires forall i :: 0 <= i < |components| ==> ListOfRoot(g, components[i], roots[i], appendNeighbour)
    requires |rounds| == if |components| > 1 then |components| - 1 else 0
    requires forall i {:trigger rounds[i]} :: 0 <= i < |rounds| ==> RoundOf(components[i], components[i + 1], rounds[i], answers)
    ensures RepairsFrom(n0, nodes, alive, g, rounds, answers)
  {
    if nodes <= n0.Keys && g == Topology(n0, nodes, alive) {
      if |components| > 1 {
        AttemptsBetweenComponents(g, roots, components, rounds, answers, appendNeighbour);
        RoundsRepair(n0, ReplayAll(n0, rounds, answers), nodes, alive, roots, rounds, answers);
      } else {
        NothingToRepair(g, answers);
      }
    }
  }

  lemma OneMoreAttempt(n0: Adjacency, attempts: seq<(EdgePeer, EdgePeer)>, a: EdgePeer, b: EdgePeer, answers: Answers,
                       first: set<EdgePeer>, second: set<EdgePeer>)
    ensures Replay(n0, attempts + [(a, b)], answers) == AfterAttempt(Replay(n0, attempts, answers), a, b, AttemptOf(answers, a, b))
    ensures LinkedBy(attempts + [(a, b)], answers) <==> LinkedBy(attempts, answers) || AttemptOf(answers, a, b).TookEffect()
    ensures Between(attempts, first, second) && a in first && b in second ==> Between(attempts + [(a, b)], first, second)
    ensures forall x :: x in attempts + [(a, b)] <==> x in attempts || x == (a, b)
  {
    assert (attempts + [(a, b)])[..|attempts|] == attempts;
    LinkedByLast(attempts + [(a, b)], answers);
  }

  /**
   What node `a` has achieved after the first `j` nodes of the second component: which attempts
   it made on top of those already `tried`, and whether one was seen to succeed.
   */
  ghost predicate Linking(a: EdgePeer, second: seq<EdgePeer>, j: nat, answers: Answers, created: bool, createdAnEdge: bool,
                          first: set<EdgePeer>, tried: seq<(EdgePeer, EdgePeer)>, attempts: seq<(EdgePeer, EdgePeer)>)
    requires j <= |second|
  {
    && Between(attempts, first, Elements(second)) && (createdAnEdge ==> LinkedBy(attempts, answers))
    && (createdAnEdge <==> created || SomeReported([a], second[..j], answers))
    && (forall x :: x in tried ==> x in attempts)
    && (!createdAnEdge ==> forall b :: b in second[..j] ==> (a, b) in attempts)
    && (j == 0 ==> attempts == tried)
    && (!created && j == 1 ==> attempts == tried + [(a, second[0])])
  }

  /** The next pair was tried. */
  lemma LinkingTried(a: EdgePeer, second: seq<EdgePeer>, j: nat, next: nat, answers: Answers, created: bool, createdAnEdge: bool,
                     first: set<EdgePeer>, tried: seq<(EdgePeer, EdgePeer)>, attempts: seq<(EdgePeer, EdgePeer)>)
    requires AllHonest(answers) && a in first && j < |second| && next == j + 1
    requires Linking(a, second, j, answers, created, createdAnEdge, first, tried, attempts)
    ensures Linking(a, second, next, answers, created, createdAnEdge || AttemptOf(answers, a, second[j]).Reported(),
                    first, tried, attempts + [(a, second[j])])
  {
    ReportedNext(a, second, j, answers);
    OneMoreAttempt(map[], attempts, a, second[j], answers, first, Elements(second));
    assert second[..next] == second[..j] + [second[j]];
    if createdAnEdge {
      assert LinkedBy(attempts, answers);
    }
  }

  /** The next pair was left out, which only happens once an edge was created. */
  lemma LinkingSkipped(a: EdgePeer, second: seq<EdgePeer>, j: nat, next: nat, answers: Answers, created: bool,
                       first: set<EdgePeer>, tried: seq<(EdgePeer, EdgePeer)>, attempts: seq<(EdgePeer, EdgePeer)>)
    requires j < |second| && next == j + 1
    requires Linking(a, second, j, answers, created, true, first, tried, attempts)
    ensures Linking(a, second, next, answers, created, true, first, tried, attempts)
  {
    ReportedNext(a, second, j, answers);
  }

  lemma OneMoreRound(n0: Adjacency, rounds: Rounds, attempts: seq<(EdgePeer, EdgePeer)>, answers: Answers)
    ensures ReplayAll(n0, rounds + [attempts], answers) == Replay(ReplayAll(n0, rounds, answers), attempts, answers)
  {
    assert (rounds + [attempts])[..|rounds|] == rounds;
  }

  class RegistryService {
    var connections: map<EdgePeer, Connection>
    var heartbeats: map<EdgePeer, Time>
    var heartbeatCheckTime: Time

    /** Every member has a heartbeat and a connection, so no handler meets a missing connection. */
    ghost predicate Valid()
      reads this
    {
      connections.Keys == heartbeats.Keys
    }

    ghost function Membership(): Members<EdgePeer>
      reads this
    {
      Members(heartbeats, heartbeatCheckTime)
    }

    constructor (now: Time)
      ensures Valid() && Membership() == Members(map[], now)
    {
      connections, heartbeats, heartbeatCheckTime := map[], map[], now;
    }

    /** A peer joins; `dialled` is the outcome of connecting back to it. */
    method PeerEnter(edgePeer: EdgePeer, dialled: Option<Connection>, now: Time) returns (reply: Option<set<EdgePeer>>)
      requires Valid()
      modifies this
      ensures Valid() && connections.Keys == heartbeats.Keys
      ensures dialled.None? ==> reply == None && connections == old(connections) && Membership() == old(Membership())
      ensures dialled.Some? ==>
                && reply.Some?
                && connections == old(connections)[edgePeer := dialled.value]
                && heartbeats == old(heartbeats)[edgePeer := now] && heartbeatCheckTime == old(heartbeatCheckTime)
                && Membership() == Apply(old(Membership()), Heard(edgePeer, now), 0)
                && reply.value <= old(heartbeats).Keys - {edgePeer}
                && (reply.value == {} <==> old(heartbeats).Keys <= {edgePeer})
    {
      match dialled
      case None =>
        reply := None;
      case Some(connection) =>
        connections := connections[edgePeer := connection];
        heartbeats := heartbeats[edgePeer := now];
        var neighbours := FindNeighboursForPeer(edgePeer);
        reply := Some(neighbours);
    }

    /** At least one neighbour whenever there is another member; the rest at random. */
    method FindNeighboursForPeer(edgePeer: EdgePeer) returns (neighbours: set<EdgePeer>)
      ensures neighbours <= heartbeats.Keys - {edgePeer}
      ensures neighbours == {} <==> heartbeats.Keys <= {edgePeer}
    {
      var createdEdge := false;
      neighbours := {};
      var todo := heartbeats.Keys;
      while todo != {}
        invariant todo <= heartbeats.Keys
        invariant neighbours <= heartbeats.Keys - todo - {edgePeer}
        invariant createdEdge <==> neighbours != {}
        invariant !createdEdge ==> heartbeats.Keys - todo <= {edgePeer}
        decreases todo
      {
        var peer :| peer in todo;
        todo := todo - {peer};
        if peer != edgePeer {
          var thereIsEdge := true;
          if createdEdge {
            thereIsEdge := *;
          }
          if thereIsEdge {
            neighbours := neighbours + {peer};
            createdEdge := true;
          }
        }
      }
    }

    /** A heartbeat; an unknown peer is dialled first and, on failure, not admitted. */
    method Heartbeat(edgePeer: EdgePeer, dialled: Option<Connection>, now: Time) returns (ok: bool)
      requires Valid()
      modifies this
      ensures Valid() && connections.Keys == heartbeats.Keys
      ensures ok <==> edgePeer in old(heartbeats) || dialled.Some?
      ensures heartbeats == if ok then old(heartbeats)[edgePeer := now] else old(heartbeats)
      ensures heartbeatCheckTime == old(heartbeatCheckTime)
      ensures ok ==> Membership() == Apply(old(Membership()), Heard(edgePeer, now), 0)
      ensures !ok ==> Membership() == old(Membership())
      ensures connections == if edgePeer in old(heartbeats) || dialled.None? then old(connections)
                             else old(connections)[edgePeer := dialled.value]
    {
      if edgePeer !in heartbeats {
        match dialled
        case None =>
          return false;
        case Some(connection) =>
          connections := connections[edgePeer := connection];
      }
      heartbeats := heartbeats[edgePeer := now];
      ok := true;
    }

    /** Drops every member whose heartbeat is too old at the PREVIOUS check. */
    method CheckForDeadPeers(heartbeatThr: Time, now: Time)
      requires Valid()
      modifies this
      ensures Valid() && connections.Keys == heartbeats.Keys
      ensures heartbeatCheckTime == now
      ensures forall p :: p in heartbeats <==>
                p in old(heartbeats) && old(heartbeatCheckTime) - old(heartbeats)[p] <= heartbeatThr
      ensures forall p :: p in heartbeats ==> heartbeats[p] == old(heartbeats)[p]
      ensures Membership() == Apply(old(Membership()), Check(now), heartbeatThr)
      ensures forall p :: p in connections ==> connections[p] == old(connections)[p]
    {
      var lastCheckTime := heartbeatCheckTime;
      var todo := heartbeats.Keys;
      while todo != {}
        invariant todo <= heartbeats.Keys <= old(heartbeats).Keys && Valid()
        invariant lastCheckTime == heartbeatCheckTime == old(heartbeatCheckTime)
        invariant forall p :: p in heartbeats ==> heartbeats[p] == old(heartbeats)[p]
        invariant forall p :: p in connections ==> connections[p] == old(connections)[p]
        invariant forall p :: p in old(heartbeats) && p !in todo ==>
                    (p in heartbeats <==> !Stale(old(heartbeats)[p], lastCheckTime, heartbeatThr))
        decreases todo
      {
        var edgePeer :| edgePeer in todo;
        todo := todo - {edgePeer};
        if lastCheckTime - heartbeats[edgePeer] > heartbeatThr {
          if edgePeer in connections {
            connections := connections - {edgePeer};
          }
          heartbeats := heartbeats - {edgePeer};
        }
      }
      heartbeatCheckTime := now;
      assert heartbeats == Survivors(old(heartbeats), lastCheckTime, heartbeatThr);
    }

    ghost function Nodes(replies: map<EdgePeer, Reply>): set<EdgePeer>
      reads this
    {
      Responding(connections.Keys, heartbeats.Keys, replies)
    }

    /** Asks both peers at once to add the other, and waits for whichever outcome comes first. */
    method CallBoth(overlay: Overlay, a: EdgePeer, b: EdgePeer, answers: Answers) returns (succeeded: bool)
      requires a in connections && b in connections
      modifies overlay
      ensures overlay.neighbours == AfterAttempt(old(overlay.neighbours), a, b, AttemptOf(answers, a, b))
      ensures succeeded <==> AttemptOf(answers, a, b).Reported()
      ensures overlay.neighbours.Keys == old(overlay.neighbours).Keys
      ensures forall p :: p in overlay.neighbours ==>
                overlay.neighbours[p] == old(overlay.neighbours)[p] +
                                         (if p == a && (a, b) in answers && answers[(a, b)].firstTook then {b} else {}) +
                                         (if p == b && (a, b) in answers && answers[(a, b)].secondTook then {a} else {})
      ensures succeeded <==> (a, b) in answers && answers[(a, b)].observed in {FirstDone(true), SecondDone(true)}
    {
      var t := AttemptOf(answers, a, b);
      if t.firstTook {
        overlay.neighbours := WithNeighbour(overlay.neighbours, a, b);
      }
      if t.secondTook {
        overlay.neighbours := WithNeighbour(overlay.neighbours, b, a);
      }
      match t.observed
      case FirstDone(ok) => succeeded := ok;
      case SecondDone(ok) => succeeded := ok;
      case TimedOut => succeeded := false;
    }

    /**
     The inner loop: one node of the first component against all of the second.  `tried`
     are the attempts made since the neighbour sets were `n0`.
     */
    method LinkNode(overlay: Overlay, a: EdgePeer, secondComponent: seq<EdgePeer>, answers: Answers, created: bool,
                    ghost n0: Adjacency, ghost first: set<EdgePeer>, ghost tried: seq<(EdgePeer, EdgePeer)>)
      returns (createdAnEdge: bool, ghost attempts: seq<(EdgePeer, EdgePeer)>)
      requires AllHonest(answers) && a in first && a in connections
      requires forall p :: p in secondComponent ==> p in connections
      requires overlay.neighbours == Replay(n0, tried, answers)
      requires Between(tried, first, Elements(secondComponent)) && (created ==> LinkedBy(tried, answers))
      modifies overlay
      ensures overlay.neighbours == Replay(n0, attempts, answers)
      ensures Between(attempts, first, Elements(secondComponent)) && (createdAnEdge ==> LinkedBy(attempts, answers))
      ensures createdAnEdge <==> created || SomeReported([a], secondComponent, answers)
      ensures forall x :: x in tried ==> x in attempts
      ensures !createdAnEdge ==> forall b :: b in secondComponent ==> (a, b) in attempts
      ensures !created && |secondComponent| == 1 ==> attempts == tried + [(a, secondComponent[0])]
    {
      createdAnEdge, attempts := created, tried;
      var j := 0;
      while j < |secondComponent|
        invariant j <= |secondComponent| && overlay.neighbours == Replay(n0, attempts, answers)
        invariant Linking(a, secondComponent, j, answers, created, createdAnEdge, first, tried, attempts)
      {
        var next := j + 1;
        var thereIsEdge := true;
        if createdAnEdge {
          thereIsEdge := *;
        }
        if thereIsEdge {
          var b := secondComponent[j];
          var succeeded := CallBoth(overlay, a, b, answers);
          OneMoreAttempt(n0, attempts, a, b, answers, first, Elements(secondComponent));
          LinkingTried(a, secondComponent, j, next, answers, created, createdAnEdge, first, tried, attempts);
          attempts := attempts + [(a, b)];
          if succeeded {
            createdAnEdge := true;
          }
        } else {
          LinkingSkipped(a, secondComponent, j, next, answers, created, first, tried, attempts);
        }
        j := next;
      }
      assert secondComponent[..|secondComponent|] == secondComponent;
    }

    /**
     Tries to put an edge between the two components: every pair until one attempt is seen
     to succeed, random pairs after that.
     */
    method UnifyTwoComponents(overlay: Overlay, firstComponent: seq<EdgePeer>, secondComponent: seq<EdgePeer>, answers: Answers)
      returns (createdAnEdge: bool, ghost attempts: seq<(EdgePeer, EdgePeer)>)
      requires AllHonest(answers)
      requires forall p :: p in firstComponent || p in secondComponent ==> p in connections
      modifies overlay
      ensures overlay.neighbours == Replay(old(overlay.neighbours), attempts, answers)
      ensures Between(attempts, Elements(firstComponent), Elements(secondComponent))
      ensures createdAnEdge <==> SomeReported(firstComponent, secondComponent, answers)
      ensures createdAnEdge ==> LinkedBy(attempts, answers)
      ensures !createdAnEdge ==> forall a, b :: a in firstComponent && b in secondComponent ==> (a, b) in attempts
      ensures |firstComponent| == |secondComponent| == 1 ==> attempts == [(firstComponent[0], secondComponent[0])]
    {
      ghost var n0 := overlay.neighbours;
      createdAnEdge, attempts := false, [];
      for i := 0 to |firstComponent|
        invariant overlay.neighbours == Replay(n0, attempts, answers)
        invariant Between(attempts, Elements(firstComponent), Elements(secondComponent))
        invariant createdAnEdge <==> SomeReported(firstComponent[..i], secondComponent, answers)
        invariant createdAnEdge ==> LinkedBy(attempts, answers)
        invariant !createdAnEdge ==> forall a, b :: a in firstComponent[..i] && b in secondComponent ==> (a, b) in attempts
        invariant i == 0 ==> attempts == []
        invariant i == 1 == |secondComponent| ==> attempts == [(firstComponent[0], secondComponent[0])]
      {
        createdAnEdge, attempts := LinkNode(overlay, firstComponent[i], secondComponent, answers, createdAnEdge,
                                            n0, Elements(firstComponent), attempts);
        ReportedMore(firstComponent, secondComponent, i, answers);
      }
      assert firstComponent[..|firstComponent|] == firstComponent;
    }

    /** Chains consecutive components together. */
    method UnifyNetwork(overlay: Overlay, connectedComponents: seq<seq<EdgePeer>>, answers: Answers)
      returns (ghost rounds: Rounds)
      requires AllHonest(answers)
      requires forall c, p :: c in connectedComponents && p in c ==> p in connections
      modifies overlay
      ensures overlay.neighbours == ReplayAll(old(overlay.neighbours), rounds, answers)
      ensures |rounds| == if connectedComponents == [] then 0 else |connectedComponents| - 1
      ensures forall i {:trigger rounds[i]} :: 0 <= i < |rounds| ==>
                RoundOf(connectedComponents[i], connectedComponents[i + 1], rounds[i], answers)
    {
      rounds := [];
      ghost var n0 := overlay.neighbours;
      var componentIndex := 0;
      while componentIndex < |connectedComponents| - 1
        invariant componentIndex == |rounds| && (connectedComponents == [] ==> componentIndex == 0)
        invariant connectedComponents != [] ==> componentIndex <= |connectedComponents| - 1
        invariant overlay.neighbours == ReplayAll(n0, rounds, answers)
        invariant forall i {:trigger rounds[i]} :: 0 <= i < |rounds| ==>
                    RoundOf(connectedComponents[i], connectedComponents[i + 1], rounds[i], answers)
      {
        var next := componentIndex + 1;
        var firstComponent, secondComponent := connectedComponents[componentIndex], connectedComponents[next];
        var createdAnEdge, attempts := UnifyTwoComponents(overlay, firstComponent, secondComponent, answers);
        OneMoreRound(n0, rounds, attempts, answers);
        rounds := rounds + [attempts];
        componentIndex := next;
      }
    }

    /**
     One repair round.  `replies` are the outcomes of the `GetNeighbours` calls and
     `answers` those of the `AddNeighbour` attempts; `rounds` records the attempts made.
     */
    method SolveNetworkPartitions(overlay: Overlay, replies: map<EdgePeer, Reply>, answers: Answers, appendNeighbour: bool)
      returns (panicked: bool, ghost rounds: Rounds)
      requires Valid() && AllHonest(answers)
      modifies overlay
      ensures overlay.neighbours == ReplayAll(old(overlay.neighbours), rounds, answers)
      ensures panicked <==> ListsFailedPeer(connections.Keys, heartbeats.Keys, replies)
      ensures panicked ==> rounds == []
      ensures !appendNeighbour ==> forall i :: 0 <= i < |rounds| ==> |rounds[i]| == 1
      ensures !panicked && (forall i :: 0 <= i < |rounds| ==> LinkedBy(rounds[i], answers)) ==>
                var told := map p | p in connections.Keys && p in heartbeats.Keys && p in replies && replies[p] != NoReply ::
                                    match replies[p] case Neighbours(adjs) => adjs * heartbeats.Keys case _ => {};
                var after := Topology(ReplayAll(told, rounds, answers), told.Keys, heartbeats.Keys);
                forall a, b :: a in told && b in told ==> Reaches(after, a, b)
      ensures !panicked ==>
                var seen := Reported(connections.Keys, heartbeats.Keys, replies);
                Repaired(Topology(seen, Nodes(replies), heartbeats.Keys),
                         Topology(ReplayAll(seen, rounds, answers), Nodes(replies), heartbeats.Keys), rounds, answers)
      ensures Answered(old(overlay.neighbours), Nodes(replies), replies) ==>
                && !panicked
                && Repaired(Topology(old(overlay.neighbours), Nodes(replies), heartbeats.Keys),
                            Topology(overlay.neighbours, Nodes(replies), heartbeats.Keys), rounds, answers)
    {
      rounds := [];
      ghost var n0, nodes, alive := overlay.neighbours, Nodes(replies), heartbeats.Keys;
      var graph := new Graph();
      panicked := graph.BuildGraph(connections.Keys, heartbeats.Keys, replies);
      if panicked {
        if Answered(n0, nodes, replies) {
          AnsweredTopology(n0, connections.Keys, alive, replies);
        }
        return;
      }
      ghost var seen := Reported(connections.Keys, alive, replies);
      SymmetricClosureEdges(seen);
      ReportedTopology(connections.Keys, alive, replies);
      rounds := UnifyIfPartitioned(overlay, graph, answers, appendNeighbour, nodes, seen);
      if forall i :: 0 <= i < |rounds| ==> LinkedBy(rounds[i], answers) {
        AllLinkedReach(connections.Keys, alive, replies, rounds, answers);
      }
      if Answered(n0, nodes, replies) {
        AnsweredTopology(n0, connections.Keys, alive, replies);
      }
    }

    /** Looks for the components and, when there is more than one, links them. */
    method UnifyIfPartitioned(overlay: Overlay, graph: Graph, answers: Answers, appendNeighbour: bool,
                              ghost nodes: set<EdgePeer>, ghost seen: Adjacency)
      returns (ghost rounds: Rounds)
      requires AllHonest(answers) && Symmetric(graph.View())
      requires graph.View().Keys <= connections.Keys && nodes <= heartbeats.Keys
      modifies overlay
      ensures overlay.neighbours == ReplayAll(old(overlay.neighbours), rounds, answers)
      ensures !appendNeighbour ==> forall i :: 0 <= i < |rounds| ==> |rounds[i]| == 1
      ensures RepairsFrom(old(overlay.neighbours), nodes, heartbeats.Keys, graph.View(), rounds, answers)
      ensures RepairsFrom(seen, nodes, heartbeats.Keys, graph.View(), rounds, answers)
    {
      rounds := [];
      ghost var n0 := overlay.neighbours;
      var connectedComponents := graph.FindConnectedComponents(appendNeighbour);
      ghost var g, roots := graph.View(), Roots(connectedComponents);
      ListsHoldNodes(g, roots, connectedComponents, appendNeighbour);
      if |connectedComponents| > 1 {
        rounds := UnifyNetwork(overlay, connectedComponents, answers);
      }
      RepairOutcome(n0, nodes, heartbeats.Keys, g, roots, connectedComponents, rounds, answers, appendNeighbour);
      RepairOutcome(seen, nodes, heartbeats.Keys, g, roots, connectedComponents, rounds, answers, appendNeighbour);
    }
  }
}
