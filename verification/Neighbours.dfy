/**
 The neighbour tables of an edge peer: open connections with their missed-ping counters,
 and the Bloom filters the neighbours announced.  A filter is an arbitrary fixed test.
 */
module Neighbours {
  import opened EdgePeers
  import opened Reachability
  import opened OverlayGraph

  type Filter = string -> bool

  /** What one ping does to a counter: None once the neighbour is dropped. */
  function AfterPing(missed: nat, answered: bool, maxMissedPing: int): Option<nat> {
    if answered then Some(0) else if missed + 1 >= maxMissedPing then None else Some(missed + 1)
  }

  /** The missed-ping counter of a peer; None while it is no neighbour. */
  function CounterOf(conns: map<EdgePeer, nat>, p: EdgePeer): Option<nat> {
    if p in conns then Some(conns[p]) else None
  }

  class AdjacentPeers {
    var peerConns: map<EdgePeer, nat>
    var filterMap: map<EdgePeer, Filter>

    constructor ()
      ensures peerConns == map[] && filterMap == map[]
    {
      peerConns, filterMap := map[], map[];
    }

    /** A received ping puts an unknown sender back among the neighbours. */
    method Ping(edgePeer: EdgePeer, dialled: bool) returns (ok: bool)
      modifies this`peerConns
      ensures ok <==> edgePeer in old(peerConns) || dialled
      ensures peerConns == if edgePeer in old(peerConns) || !dialled then old(peerConns) else old(peerConns)[edgePeer := 0]
      ensures forall limit :: CounterOf(peerConns, edgePeer) == AfterEvent(CounterOf(old(peerConns), edgePeer), PingReceived(dialled), limit)
    {
      if edgePeer !in peerConns {
        if !dialled {
          return false;
        }
        peerConns := peerConns[edgePeer := 0];
      }
      ok := true;
    }

    method AddNeighbour(peer: EdgePeer, dialled: bool) returns (ok: bool)
      modifies this`peerConns
      ensures ok == dialled
      ensures peerConns == if dialled then old(peerConns)[peer := 0] else old(peerConns)
      ensures dialled ==> forall limit :: CounterOf(peerConns, peer) == AfterEvent(CounterOf(old(peerConns), peer), Added, limit)
    {
      if dialled {
        peerConns := peerConns[peer := 0];
      }
      ok := dialled;
    }

    /** A filter is recorded even for a sender that is not a neighbour. */
    method NotifyBloomFilter(edgePeer: EdgePeer, decoded: Option<Filter>) returns (ok: bool)
      modifies this`filterMap
      ensures ok == decoded.Some?
      ensures filterMap == if decoded.Some? then old(filterMap)[edgePeer := decoded.value] else old(filterMap)
    {
      if decoded.Some? {
        filterMap := filterMap[edgePeer := decoded.value];
      }
      ok := decoded.Some?;
    }

    method TimeoutAction(adjPeer: EdgePeer, maxMissedPing: int)
      modifies this
      ensures adjPeer !in old(peerConns) ==> peerConns == old(peerConns) && filterMap == old(filterMap)
      ensures adjPeer in old(peerConns) && old(peerConns)[adjPeer] + 1 < maxMissedPing ==>
                peerConns == old(peerConns)[adjPeer := old(peerConns)[adjPeer] + 1] && filterMap == old(filterMap)
      ensures adjPeer in old(peerConns) && old(peerConns)[adjPeer] + 1 >= maxMissedPing ==>
                peerConns == old(peerConns) - {adjPeer} && filterMap == old(filterMap) - {adjPeer}
      ensures CounterOf(peerConns, adjPeer) == AfterEvent(CounterOf(old(peerConns), adjPeer), Pinged(false), maxMissedPing)
      ensures adjPeer in old(peerConns) ==>
                match AfterPing(old(peerConns)[adjPeer], false, maxMissedPing)
                case Some(missed) => peerConns == old(peerConns)[adjPeer := missed] && filterMap == old(filterMap)
                case None => peerConns == old(peerConns) - {adjPeer} && filterMap == old(filterMap) - {adjPeer}
    {
      if adjPeer in peerConns {
        var missedPing := peerConns[adjPeer] + 1;
        peerConns := peerConns[adjPeer := missedPing];
        if missedPing >= maxMissedPing {
          peerConns := peerConns - {adjPeer};
          filterMap := filterMap - {adjPeer};
        }
      }
    }

    /** One round of pings over a copy of the table; `answers` says which neighbours replied. */
    method PingFunction(answers: set<EdgePeer>, maxMissedPing: int)
      modifies this
      ensures forall p :: p in peerConns <==>
                p in old(peerConns) && AfterPing(old(peerConns)[p], p in answers, maxMissedPing).Some?
      ensures forall p :: p in peerConns ==>
                Some(peerConns[p]) == AfterPing(old(peerConns)[p], p in answers, maxMissedPing)
      ensures forall p :: p in old(peerConns) ==>
                CounterOf(peerConns, p) == AfterEvent(CounterOf(old(peerConns), p), Pinged(p in answers), maxMissedPing)
      ensures filterMap == old(filterMap) - (old(peerConns).Keys - peerConns.Keys)
    {
      var connections := peerConns.Keys;
      while connections != {}
        invariant connections <= peerConns.Keys <= old(peerConns).Keys
        invariant forall p :: p in connections ==> peerConns[p] == old(peerConns)[p]
        invariant forall p :: p in old(peerConns) && p !in connections ==>
                    (p in peerConns <==> AfterPing(old(peerConns)[p], p in answers, maxMissedPing).Some?)
        invariant forall p :: p in peerConns && p !in connections ==>
                    Some(peerConns[p]) == AfterPing(old(peerConns)[p], p in answers, maxMissedPing)
        invariant filterMap == old(filterMap) - (old(peerConns).Keys - peerConns.Keys)
        decreases connections
      {
        var adjPeer :| adjPeer in connections;
        connections := connections - {adjPeer};
        if adjPeer in answers {
          if adjPeer in peerConns {
            peerConns := peerConns[adjPeer := 0];
          }
        } else {
          TimeoutAction(adjPeer, maxMissedPing);
        }
      }
    }
  }

  // ----- Whole histories of one neighbour -----

  /** The counter after a sequence of ping rounds, oldest first. */
  function AfterPings(missed: nat, answered: seq<bool>, maxMissedPing: int): Option<nat>
    decreases |answered|
  {
    if answered == [] then Some(missed)
    else
      match AfterPings(missed, answered[..|answered| - 1], maxMissedPing)
      case None => None
      case Some(n) => AfterPing(n, answered[|answered| - 1], maxMissedPing)
  }

  /** The number of unanswered pings since the last answered one. */
  function TrailingMisses(answered: seq<bool>): nat
    decreases |answered|
  {
    if answered == [] || answered[|answered| - 1] then 0 else 1 + TrailingMisses(answered[..|answered| - 1])
  }

  ghost predicate MissedInARow(answered: seq<bool>, start: nat, count: nat) {
    start + count <= |answered| && forall k :: start <= k < start + count ==> !answered[k]
  }

  lemma {:induction false} TrailingMissesAreARow(answered: seq<bool>)
    ensures TrailingMisses(answered) <= |answered|
    ensures MissedInARow(answered, |answered| - TrailingMisses(answered), TrailingMisses(answered))
    ensures TrailingMisses(answered) < |answered| ==> answered[|answered| - TrailingMisses(answered) - 1]
  {
    if answered != [] && !answered[|answered| - 1] {
      var before := answered[..|answered| - 1];
      TrailingMissesAreARow(before);
      assert forall k :: 0 <= k < |before| ==> before[k] == answered[k];
    }
  }

  /** A neighbour is dropped exactly when it missed `maxMissedPing` pings in a row. */
  lemma {:induction false} DroppedIffMissedInARow(answered: seq<bool>, maxMissedPing: nat)
    requires maxMissedPing >= 1
    ensures AfterPings(0, answered, maxMissedPing) == None <==>
              exists start :: MissedInARow(answered, start, maxMissedPing)
    ensures AfterPings(0, answered, maxMissedPing).Some? ==>
              AfterPings(0, answered, maxMissedPing) == Some(TrailingMisses(answered)) && TrailingMisses(answered) < maxMissedPing
  {
    if answered != [] {
      var n := |answered| - 1;
      var before := answered[..n];
      DroppedIffMissedInARow(before, maxMissedPing);
      TrailingMissesAreARow(before);
      assert forall k :: 0 <= k < n ==> before[k] == answered[k];
      if start: nat :| MissedInARow(before, start, maxMissedPing) {
        assert MissedInARow(answered, start, maxMissedPing);
      } else if start: nat :| MissedInARow(answered, start, maxMissedPing) {
        if start + maxMissedPing <= n {
          RowInPrefix(answered, start, maxMissedPing, n);
        } else {
          LongRowEndsInTrailing(before, start);
        }
      } else {
        if !answered[n] && TrailingMisses(before) + 1 >= maxMissedPing {
          assert MissedInARow(answered, |answered| - maxMissedPing, maxMissedPing);
        }
      }
    }
  }

  lemma RowInPrefix(answered: seq<bool>, start: nat, count: nat, n: nat)
    requires MissedInARow(answered, start, count) && start + count <= n <= |answered|
    ensures MissedInARow(answered[..n], start, count)
  {
  }

  lemma {:induction false} LongRowEndsInTrailing(answered: seq<bool>, start: nat)
    requires start <= |answered| && MissedInARow(answered, start, |answered| - start)
    ensures TrailingMisses(answered) >= |answered| - start
  {
    if start < |answered| {
      var before := answered[..|answered| - 1];
      LongRowEndsInTrailing(before, start);
    }
  }

  // ----- Histories with the other handlers between the pings -----

  /** What can happen to one peer's entry: its ping's outcome, an `AddNeighbour`, a ping received from it. */
  datatype NeighbourEvent = Pinged(answered: bool) | Added | PingReceived(dialled: bool)

  /** The entry's counter after one event; None while the peer is no neighbour. */
  function AfterEvent(counter: Option<nat>, e: NeighbourEvent, maxMissedPing: int): Option<nat> {
    match e
    case Pinged(answered) => if counter.Some? then AfterPing(counter.value, answered, maxMissedPing) else None
    case Added => Some(0)
    case PingReceived(dialled) => if counter == None && dialled then Some(0) else counter
  }

  function AfterEvents(counter: Option<nat>, events: seq<NeighbourEvent>, maxMissedPing: int): Option<nat>
    decreases |events|
  {
    if events == [] then counter
    else AfterEvent(AfterEvents(counter, events[..|events| - 1], maxMissedPing), events[|events| - 1], maxMissedPing)
  }

  function Misses(events: seq<NeighbourEvent>): nat
    decreases |events|
  {
    if events == [] then 0
    else Misses(events[..|events| - 1]) + if events[|events| - 1] == Pinged(false) then 1 else 0
  }

  /** No answered ping and no `AddNeighbour`. */
  predicate Unanswered(events: seq<NeighbourEvent>) {
    forall k :: 0 <= k < |events| ==> events[k] != Pinged(true) && events[k] != Added
  }

  /** From a fresh counter and without answers, the entry counts the misses and goes with the last one allowed. */
  lemma {:induction false} DropsAtLimit(events: seq<NeighbourEvent>, maxMissedPing: nat)
    requires maxMissedPing >= 1 && Unanswered(events)
    ensures Misses(events) < maxMissedPing ==> AfterEvents(Some(0), events, maxMissedPing) == Some(Misses(events))
    ensures events != [] && events[|events| - 1] == Pinged(false) && Misses(events) == maxMissedPing ==>
              AfterEvents(Some(0), events, maxMissedPing) == None
  {
    if events != [] {
      DropsAtLimit(events[..|events| - 1], maxMissedPing);
    }
  }

  lemma {:induction false} HistoriesJoin(counter: Option<nat>, a: seq<NeighbourEvent>, b: seq<NeighbourEvent>, maxMissedPing: int)
    ensures AfterEvents(counter, a + b, maxMissedPing) == AfterEvents(AfterEvents(counter, a, maxMissedPing), b, maxMissedPing)
  {
    if b == [] {
      assert a + b == a;
    } else {
      assert (a + b)[..|a + b| - 1] == a + b[..|b| - 1];
      HistoriesJoin(counter, a, b[..|b| - 1], maxMissedPing);
    }
  }

  /**
   Whatever happens between the pings, the counter of a neighbour is the number of misses
   since it was last zero, and that is below the limit.
   */
  lemma {:induction false} CounterIsMissesSinceReset(events: seq<NeighbourEvent>, maxMissedPing: nat) returns (reset: nat)
    requires maxMissedPing >= 1 && AfterEvents(None, events, maxMissedPing).Some?
    ensures reset <= |events| && AfterEvents(None, events[..reset], maxMissedPing) == Some(0)
    ensures Unanswered(events[reset..])
    ensures AfterEvents(None, events, maxMissedPing) == Some(Misses(events[reset..])) && Misses(events[reset..]) < maxMissedPing
    decreases |events|
  {
    var n := |events| - 1;
    if AfterEvents(None, events, maxMissedPing) == Some(0) {
      reset := |events|;
      assert events[..reset] == events && events[reset..] == [];
    } else {
      reset := CounterIsMissesSinceReset(events[..n], maxMissedPing);
      assert events[..n][..reset] == events[..reset];
      assert events[reset..][..n - reset] == events[..n][reset..];
      assert events[reset..] == events[..n][reset..] + [events[n]];
    }
  }

  /** The same from the last reset in a whole history: the miss that reaches the limit drops the neighbour. */
  lemma LimitReachedDrops(events: seq<NeighbourEvent>, reset: nat, maxMissedPing: nat)
    requires maxMissedPing >= 1 && reset <= |events|
    requires AfterEvents(None, events[..reset], maxMissedPing) == Some(0) && Unanswered(events[reset..])
    ensures Misses(events[reset..]) < maxMissedPing ==>
              AfterEvents(None, events, maxMissedPing) == Some(Misses(events[reset..]))
    ensures reset < |events| && events[|events| - 1] == Pinged(false) && Misses(events[reset..]) == maxMissedPing ==>
              AfterEvents(None, events, maxMissedPing) == None
  {
    HistoriesJoin(None, events[..reset], events[reset..], maxMissedPing);
    assert events[..reset] + events[reset..] == events;
    DropsAtLimit(events[reset..], maxMissedPing);
  }

  /**
   An unanswered ping drops a neighbour exactly when it is the last one allowed since the
   counter was last zero, over any history.
   */
  lemma DroppedIffLimitReached(events: seq<NeighbourEvent>, maxMissedPing: nat) returns (reset: nat)
    requires maxMissedPing >= 1 && events != [] && events[|events| - 1] == Pinged(false)
    requires AfterEvents(None, events[..|events| - 1], maxMissedPing).Some?
    ensures reset < |events| && AfterEvents(None, events[..reset], maxMissedPing) == Some(0) && Unanswered(events[reset..])
    ensures AfterEvents(None, events, maxMissedPing) == None <==> Misses(events[reset..]) == maxMissedPing
  {
    var n := |events| - 1;
    reset := CounterIsMissesSinceReset(events[..n], maxMissedPing);
    assert events[..n][..reset] == events[..reset];
    assert events[reset..][..n - reset] == events[..n][reset..];
    assert events[reset..] == events[..n][reset..] + [events[n]];
    LimitReachedDrops(events, reset, maxMissedPing);
  }

  // ----- A full round of pings over the whole overlay, in any interleaving -----

  /** Every peer's own neighbours, and what each peer that has copied its table still has to ping. */
  datatype Round = Round(conns: Adjacency, todo: map<EdgePeer, set<EdgePeer>>)

  ghost predicate CopyStep(s: Round, t: Round, p: EdgePeer) {
    p in s.conns && p !in s.todo && t == s.(todo := s.todo[p := s.conns[p]])
  }

  /** `p` pings `q`, and a live `q` takes `p` back among its neighbours. */
  ghost predicate PingStep(s: Round, t: Round, p: EdgePeer, q: EdgePeer) {
    && p in s.todo && q in s.todo[p]
    && t.todo == s.todo[p := s.todo[p] - {q}]
    && t.conns == if q in s.conns then s.conns[q := s.conns[q] + {p}] else s.conns
  }

  ghost predicate Step(s: Round, t: Round) {
    (exists p :: CopyStep(s, t, p)) || (exists p, q :: PingStep(s, t, p, q))
  }

  ghost predicate IsRun(run: seq<Round>) {
    |run| > 0 && run[0].todo == map[] && forall i, j :: 0 <= i < j < |run| && j == i + 1 ==> Step(run[i], run[j])
  }

  /** Runs start with nothing copied, and go on whenever a peer copies its table or pings one more neighbour. */
  lemma RoundGoesOn(run: seq<Round>, s: Round, p: EdgePeer, q: EdgePeer)
    ensures s.todo == map[] ==> IsRun([s])
    ensures IsRun(run) && s == run[|run| - 1] && p in s.conns && p !in s.todo ==>
              IsRun(run + [s.(todo := s.todo[p := s.conns[p]])])
    ensures IsRun(run) && s == run[|run| - 1] && p in s.todo && q in s.todo[p] ==>
              IsRun(run + [Round(if q in s.conns then s.conns[q := s.conns[q] + {p}] else s.conns, s.todo[p := s.todo[p] - {q}])])
  {
    if IsRun(run) && s == run[|run| - 1] {
      if p in s.conns && p !in s.todo {
        var t := s.(todo := s.todo[p := s.conns[p]]);
        assert CopyStep(s, t, p);
        OneMoreStep(run, t);
      }
      if p in s.todo && q in s.todo[p] {
        var t := Round(if q in s.conns then s.conns[q := s.conns[q] + {p}] else s.conns, s.todo[p := s.todo[p] - {q}]);
        assert PingStep(s, t, p, q);
        OneMoreStep(run, t);
      }
    }
  }

  lemma OneMoreStep(run: seq<Round>, t: Round)
    requires IsRun(run) && Step(run[|run| - 1], t)
    ensures IsRun(run + [t])
  {
    var more := run + [t];
    forall i, j | 0 <= i < j < |more| && j == i + 1
      ensures Step(more[i], more[j])
    {
      assert j < |run| ==> more[j] == run[j];
    }
  }

  /** The end of a round: every peer has copied its table and pinged all of it. */
  ghost predicate Finished(s: Round) {
    s.todo.Keys == s.conns.Keys && forall p :: p in s.todo ==> s.todo[p] == {}
  }

  /** Only reverse edges are added, and the reverse of every edge already pinged is there. */
  ghost predicate RoundInvariant(g: Adjacency, s: Round) {
    && s.conns.Keys == g.Keys && s.todo.Keys <= g.Keys
    && (forall u :: u in g ==> g[u] <= s.conns[u] <= SymmetricClosure(g)[u])
    && (forall p :: p in s.todo ==> s.todo[p] <= SymmetricClosure(g)[p])
    && (forall p, q :: p in s.todo && q in g && q in g[p] - s.todo[p] ==> p in s.conns[q])
  }

  lemma CopyKeepsInvariant(g: Adjacency, s: Round, t: Round, p: EdgePeer)
    requires RoundInvariant(g, s) && CopyStep(s, t, p)
    ensures RoundInvariant(g, t)
  {
  }

  lemma PingKeepsInvariant(g: Adjacency, s: Round, t: Round, p: EdgePeer, q: EdgePeer)
    requires RoundInvariant(g, s) && PingStep(s, t, p, q)
    ensures RoundInvariant(g, t)
  {
    SymmetricClosureEdges(g);
    if q in g {
      assert q in SymmetricClosure(g)[p];
      assert p in SymmetricClosure(g)[q];
    }
  }

  lemma {:induction false} RunKeepsInvariant(run: seq<Round>, i: nat)
    requires IsRun(run) && i < |run|
    ensures RoundInvariant(run[0].conns, run[i])
  {
    if i > 0 {
      RunKeepsInvariant(run, i - 1);
      var g, s, t := run[0].conns, run[i - 1], run[i];
      assert Step(s, t);
      if p :| CopyStep(s, t, p) {
        CopyKeepsInvariant(g, s, t, p);
      } else {
        var p, q :| PingStep(s, t, p, q);
        PingKeepsInvariant(g, s, t, p, q);
      }
    }
  }

  /** A finished round leaves exactly the symmetric closure, whatever the interleaving. */
  lemma RoundSymmetrises(run: seq<Round>)
    requires IsRun(run) && Finished(run[|run| - 1])
    ensures run[|run| - 1].conns == SymmetricClosure(run[0].conns)
  {
    RunKeepsInvariant(run, |run| - 1);
    var g, s := run[0].conns, run[|run| - 1];
    forall u | u in g
      ensures s.conns[u] == SymmetricClosure(g)[u]
    {
      forall v | v in g && u in g[v]
        ensures v in s.conns[u]
      {
      }
    }
  }
}
