/**
 One edge peer's part in the lookup flood: the receiving step, and the forwarding step that
 contacts a bounded number of neighbours, those with a positive Bloom filter first.
 */
module LookupForwarding {
  import opened EdgePeers
  import opened Reachability
  import opened OverlayGraph
  import opened RequestCache
  import opened Neighbours

  datatype LookupMessage = LookupMessage(request: FileRequest, ttl: int)

  /** A message sent to a neighbour. */
  datatype Sent = Sent(dest: EdgePeer, message: LookupMessage)

  function Dests(sent: seq<Sent>): (r: seq<EdgePeer>)
    ensures |r| == |sent|
  {
    seq(|sent|, i requires 0 <= i < |sent| => sent[i].dest)
  }

  /** Who one forwarding call may contact. */
  ghost predicate LegalFanOut(contacted: seq<EdgePeer>, neighbours: set<EdgePeer>, forwarder: EdgePeer, maxContactable: int) {
    && Distinct(contacted)
    && Elements(contacted) <= neighbours - {forwarder}
    && (maxContactable >= 1 ==> |contacted| <= maxContactable)
  }

  function Min(a: int, b: int): int {
    if a <= b then a else b
  }

  lemma ElementsOfOneMore(s: seq<EdgePeer>, p: EdgePeer)
    ensures Elements(s + [p]) == Elements(s) + {p}
    ensures Distinct(s) && p !in Elements(s) ==> Distinct(s + [p])
  {
  }

  lemma MemberOfElements(s: seq<EdgePeer>)
    ensures forall p :: p in s <==> p in Elements(s)
  {
  }

  lemma {:induction false} DistinctLength(s: seq<EdgePeer>)
    requires Distinct(s)
    ensures |Elements(s)| == |s|
  {
    DistinctElements(s);
  }

  // ----- Drawing candidates for the free slots -----

  /** An order in which the second loop can draw its candidates, each once. */
  ghost predicate Orders(draws: seq<EdgePeer>, candidates: set<EdgePeer>) {
    Distinct(draws) && Elements(draws) == candidates
  }

  lemma OrdersIff(draws: seq<EdgePeer>, candidates: set<EdgePeer>)
    ensures Orders(draws, candidates) <==>
              (forall i, j :: 0 <= i < j < |draws| ==> draws[i] != draws[j]) && (forall p :: p in draws <==> p in candidates)
  {
    MemberOfElements(draws);
  }

  /** A peer that is contacted although there is no connection to it. */
  predicate Stranger(p: EdgePeer, forwarder: EdgePeer, neighbours: set<EdgePeer>) {
    p != forwarder && p !in neighbours
  }

  function Others(draws: seq<EdgePeer>, forwarder: EdgePeer): seq<EdgePeer> {
    if draws == [] then []
    else
      var n := |draws| - 1;
      Others(draws[..n], forwarder) + if draws[n] == forwarder then [] else [draws[n]]
  }

  /**
   How many candidates the second loop draws unless a call panics.  It counts draws against
   a bound that falls with every contact, so about half of the slots are used; drawing the
   forwarder counts as a draw and contacts nobody.
   */
  function DrawCount(draws: seq<EdgePeer>, forwarder: EdgePeer, slots: nat): (n: nat)
    ensures n <= |draws|
  {
    var half := Min((slots + 1) / 2, |draws|);
    if forwarder in draws[..half] then Min(slots / 2 + 1, |draws|) else half
  }

  /** The first stranger among the first `n` candidates drawn, or `n`. */
  function FirstStranger(draws: seq<EdgePeer>, forwarder: EdgePeer, neighbours: set<EdgePeer>, n: nat): (k: nat)
    requires n <= |draws|
    ensures k <= n && (k < n ==> Stranger(draws[k], forwarder, neighbours))
    ensures forall j :: 0 <= j < k ==> !Stranger(draws[j], forwarder, neighbours)
  {
    if n == 0 then 0
    else
      var k := FirstStranger(draws, forwarder, neighbours, n - 1);
      if k == n - 1 && !Stranger(draws[k], forwarder, neighbours) then n else k
  }

  /** How many candidates are dealt with before the loop ends or panics. */
  function Reached(draws: seq<EdgePeer>, forwarder: EdgePeer, neighbours: set<EdgePeer>, slots: nat): (k: nat)
    ensures k <= DrawCount(draws, forwarder, slots)
  {
    FirstStranger(draws, forwarder, neighbours, DrawCount(draws, forwarder, slots))
  }

  /** A stranger is drawn before the loop ends. */
  predicate Panics(draws: seq<EdgePeer>, forwarder: EdgePeer, neighbours: set<EdgePeer>, slots: nat) {
    Reached(draws, forwarder, neighbours, slots) < DrawCount(draws, forwarder, slots)
  }

  /** The loop's own test, after `i` draws and `contacted` contacts, says whether one more is due. */
  lemma DrawsOn(draws: seq<EdgePeer>, forwarder: EdgePeer, slots: nat, i: nat, contacted: int)
    requires i <= DrawCount(draws, forwarder, slots)
    requires contacted == if forwarder in draws[..i] then i - 1 else i
    ensures i < slots - contacted && i < |draws| <==> i < DrawCount(draws, forwarder, slots)
  {
    var half := Min((slots + 1) / 2, |draws|);
    InLongerPrefix(draws, forwarder, i, half);
    InLongerPrefix(draws, forwarder, half, i);
  }

  lemma InLongerPrefix(draws: seq<EdgePeer>, p: EdgePeer, m: nat, n: nat)
    requires m <= |draws| && n <= |draws|
    ensures p in draws[..m] && m <= n ==> p in draws[..n]
  {
    if p in draws[..m] && m <= n {
      assert draws[..n] == draws[..m] + draws[m..n];
    }
  }

  lemma OneMoreDrawn(draws: seq<EdgePeer>, forwarder: EdgePeer, i: nat)
    requires Distinct(draws) && i < |draws|
    ensures Others(draws[..i + 1], forwarder) ==
            Others(draws[..i], forwarder) + if draws[i] == forwarder then [] else [draws[i]]
    ensures forwarder in draws[..i + 1] <==> forwarder in draws[..i] || draws[i] == forwarder
    ensures draws[i] !in draws[..i]
    ensures Elements(draws[i..]) == Elements(draws[i + 1..]) + {draws[i]} && draws[i] !in Elements(draws[i + 1..])
  {
    assert draws[..i + 1][..i] == draws[..i];
    assert draws[..i + 1] == draws[..i] + [draws[i]];
    assert draws[i..] == [draws[i]] + draws[i + 1..];
  }

  lemma {:induction false} OthersAre(draws: seq<EdgePeer>, forwarder: EdgePeer)
    requires Distinct(draws)
    ensures Distinct(Others(draws, forwarder)) && Elements(Others(draws, forwarder)) == Elements(draws) - {forwarder}
    ensures |Others(draws, forwarder)| == |draws| - if forwarder in draws then 1 else 0
  {
    if draws != [] {
      var n := |draws| - 1;
      OthersAre(draws[..n], forwarder);
      assert draws == draws[..n] + [draws[n]];
      ElementsOfOneMore(draws[..n], draws[n]);
      ElementsOfOneMore(Others(draws[..n], forwarder), draws[n]);
      assert draws[n] !in Elements(draws[..n]);
    }
  }

  /**
   About half of the free slots are filled if nobody panics: the rounded-up half when there
   are that many candidates and the forwarder is not drawn, the rounded-down half when it is.
   */
  lemma HalfIsFilled(draws: seq<EdgePeer>, forwarder: EdgePeer, slots: nat)
    requires Distinct(draws)
    ensures var n := DrawCount(draws, forwarder, slots);
            |Others(draws[..n], forwarder)| ==
            if forwarder in draws[..n] then Min(slots / 2, |draws| - 1) else Min((slots + 1) / 2, |draws|)
  {
    var n := DrawCount(draws, forwarder, slots);
    var half := Min((slots + 1) / 2, |draws|);
    OthersAre(draws[..n], forwarder);
    InLongerPrefix(draws, forwarder, half, n);
  }

  /**
   The loop fills as many slots as the candidates allow exactly when there are few slots or
   few candidates: at most one slot, or no more candidates besides the forwarder than half of
   the slots, rounded up unless the forwarder is drawn.
   */
  lemma FillsSlotsIff(draws: seq<EdgePeer>, forwarder: EdgePeer, slots: nat)
    requires Distinct(draws)
    ensures var n := DrawCount(draws, forwarder, slots);
            var others := |Others(draws, forwarder)|;
            |Others(draws[..n], forwarder)| == Min(slots, others) <==>
              if forwarder in draws[..n] then others <= slots / 2 else slots <= 1 || others <= (slots + 1) / 2
  {
    var n := DrawCount(draws, forwarder, slots);
    HalfIsFilled(draws, forwarder, slots);
    OthersAre(draws, forwarder);
    InLongerPrefix(draws, forwarder, n, |draws|);
    InLongerPrefix(draws, forwarder, |draws|, n);
    assert draws[..|draws|] == draws;
  }

  lemma ElementsOfJoin(s: seq<EdgePeer>, t: seq<EdgePeer>)
    ensures Elements(s + t) == Elements(s) + Elements(t)
  {
    forall p | p in Elements(t)
      ensures p in Elements(s + t)
    {
      var k :| 0 <= k < |t| && t[k] == p;
      assert (s + t)[|s| + k] == p;
    }
    forall p | p in Elements(s)
      ensures p in Elements(s + t)
    {
      var k :| 0 <= k < |s| && s[k] == p;
      assert (s + t)[k] == p;
    }
  }

  lemma DistinctOfJoin(s: seq<EdgePeer>, t: seq<EdgePeer>)
    requires Distinct(s) && Distinct(t) && Elements(s) !! Elements(t)
    ensures Distinct(s + t)
  {
    forall i, j | 0 <= i < j < |s + t|
      ensures (s + t)[i] != (s + t)[j]
    {
      assert i < |s| ==> (s + t)[i] in Elements(s);
      assert j >= |s| ==> (s + t)[j] in Elements(t);
    }
  }

  lemma JoinOrders(s: seq<EdgePeer>, a: set<EdgePeer>, t: seq<EdgePeer>, b: set<EdgePeer>)
    requires Orders(s, a) && Orders(t, b) && a !! b
    ensures Orders(s + t, a + b)
  {
    ElementsOfJoin(s, t);
    DistinctOfJoin(s, t);
  }

  lemma OneOrder(p: EdgePeer)
    ensures Orders([p], {p})
  {
  }

  lemma {:induction false} HasOrder(s: set<EdgePeer>) returns (draws: seq<EdgePeer>)
    ensures Orders(draws, s) && |draws| == |s|
  {
    if s == {} {
      draws := [];
    } else {
      var p :| p in s;
      var rest := HasOrder(s - {p});
      OneOrder(p);
      JoinOrders([p], {p}, rest, s - {p});
      assert {p} + (s - {p}) == s;
      draws := [p] + rest;
    }
  }

  /** Some random choice panics exactly when there is a free slot and a stranger among the candidates. */
  lemma SomeDrawPanicsIff(candidates: set<EdgePeer>, forwarder: EdgePeer, neighbours: set<EdgePeer>, slots: nat)
    ensures (exists draws :: Orders(draws, candidates) && Panics(draws, forwarder, neighbours, slots)) <==>
            slots > 0 && exists p :: p in candidates && Stranger(p, forwarder, neighbours)
  {
    if draws :| Orders(draws, candidates) && Panics(draws, forwarder, neighbours, slots) {
      var p := draws[Reached(draws, forwarder, neighbours, slots)];
      assert p in Elements(draws) && Stranger(p, forwarder, neighbours);
    }
    if p :| slots > 0 && p in candidates && Stranger(p, forwarder, neighbours) {
      var draws := StrangerFirst(candidates, p, forwarder, neighbours, slots);
    }
  }

  lemma StrangerFirst(candidates: set<EdgePeer>, p: EdgePeer, forwarder: EdgePeer, neighbours: set<EdgePeer>, slots: nat)
    returns (draws: seq<EdgePeer>)
    requires slots > 0 && p in candidates && Stranger(p, forwarder, neighbours)
    ensures Orders(draws, candidates) && Panics(draws, forwarder, neighbours, slots)
  {
    OneOrder(p);
    draws := Continued([p], {p}, candidates);
    assert draws[0] == p;
  }

  /** The draws a random choice can spend without meeting a stranger, if there is one. */
  function SafeDraws(candidates: set<EdgePeer>, forwarder: EdgePeer, neighbours: set<EdgePeer>): nat {
    |candidates * neighbours - {forwarder}|
  }

  /** The forwarder, if it is a candidate, and then the safe ones, before all others: the luckiest order. */
  lemma LuckyOrder(candidates: set<EdgePeer>, forwarder: EdgePeer, neighbours: set<EdgePeer>) returns (draws: seq<EdgePeer>)
    ensures Orders(draws, candidates)
    ensures var safe := SafeDraws(candidates, forwarder, neighbours) + if forwarder in candidates then 1 else 0;
            safe <= |draws| && forall k :: 0 <= k < safe ==> !Stranger(draws[k], forwarder, neighbours)
    ensures forwarder in candidates ==> |draws| > 0 && draws[0] == forwarder
  {
    var safe := candidates * neighbours - {forwarder};
    var s := HasOrder(safe);
    if forwarder in candidates {
      OneOrder(forwarder);
      JoinOrders([forwarder], {forwarder}, s, safe);
      draws := Continued([forwarder] + s, {forwarder} + safe, candidates);
      SafePrefix([forwarder] + s, draws, forwarder, neighbours);
    } else {
      draws := Continued(s, safe, candidates);
      SafePrefix(s, draws, forwarder, neighbours);
    }
  }

  lemma Continued(s: seq<EdgePeer>, drawn: set<EdgePeer>, candidates: set<EdgePeer>) returns (draws: seq<EdgePeer>)
    requires Orders(s, drawn) && drawn <= candidates
    ensures Orders(draws, candidates) && s <= draws
  {
    var t := HasOrder(candidates - drawn);
    JoinOrders(s, drawn, t, candidates - drawn);
    assert drawn + (candidates - drawn) == candidates;
    draws := s + t;
  }

  lemma SafePrefix(s: seq<EdgePeer>, draws: seq<EdgePeer>, forwarder: EdgePeer, neighbours: set<EdgePeer>)
    requires s <= draws && Elements(s) <= neighbours + {forwarder}
    ensures forall k :: 0 <= k < |s| ==> !Stranger(draws[k], forwarder, neighbours)
  {
    forall k | 0 <= k < |s|
      ensures !Stranger(draws[k], forwarder, neighbours)
    {
      assert s[k] in Elements(s);
    }
  }

  /** Without a stranger among the first `n` draws, they are the forwarder and safe candidates. */
  lemma SafeDrawsBound(draws: seq<EdgePeer>, candidates: set<EdgePeer>, forwarder: EdgePeer, neighbours: set<EdgePeer>, n: nat)
    requires Orders(draws, candidates) && n <= |draws|
    requires forall k :: 0 <= k < n ==> !Stranger(draws[k], forwarder, neighbours)
    ensures n <= SafeDraws(candidates, forwarder, neighbours) + if forwarder in draws[..n] then 1 else 0
  {
    OthersAre(draws[..n], forwarder);
    var others := Others(draws[..n], forwarder);
    DistinctLength(others);
    forall p | p in Elements(others)
      ensures p in candidates * neighbours - {forwarder}
    {
      assert p in Elements(draws[..n]);
      var k :| 0 <= k < n && draws[..n][k] == p;
      assert draws[k] == p && p in Elements(draws);
    }
    SubsetSize(Elements(others), candidates * neighbours - {forwarder});
  }

  /** Every random choice panics exactly when there is a stranger and the safe candidates are too few to end the loop. */
  lemma EveryDrawPanicsIff(candidates: set<EdgePeer>, forwarder: EdgePeer, neighbours: set<EdgePeer>, slots: nat)
    ensures (forall draws :: Orders(draws, candidates) ==> Panics(draws, forwarder, neighbours, slots)) <==>
            && (exists p :: p in candidates && Stranger(p, forwarder, neighbours))
            && SafeDraws(candidates, forwarder, neighbours) < if forwarder in candidates then slots / 2 else (slots + 1) / 2
  {
    var safe := SafeDraws(candidates, forwarder, neighbours);
    var enough := safe >= if forwarder in candidates then slots / 2 else (slots + 1) / 2;
    var lucky := LuckyOrder(candidates, forwarder, neighbours);
    if enough || forall p :: p in candidates ==> !Stranger(p, forwarder, neighbours) {
      LuckyDrawEnds(lucky, candidates, forwarder, neighbours, slots);
    } else {
      forall draws | Orders(draws, candidates)
        ensures Panics(draws, forwarder, neighbours, slots)
      {
        UnluckyDrawPanics(draws, candidates, forwarder, neighbours, slots);
      }
    }
  }

  lemma LuckyDrawEnds(lucky: seq<EdgePeer>, candidates: set<EdgePeer>, forwarder: EdgePeer, neighbours: set<EdgePeer>, slots: nat)
    requires Orders(lucky, candidates)
    requires var safe := SafeDraws(candidates, forwarder, neighbours) + if forwarder in candidates then 1 else 0;
             safe <= |lucky| && forall k :: 0 <= k < safe ==> !Stranger(lucky[k], forwarder, neighbours)
    requires forwarder in candidates ==> |lucky| > 0 && lucky[0] == forwarder
    requires (forall p :: p in candidates ==> !Stranger(p, forwarder, neighbours)) ||
             SafeDraws(candidates, forwarder, neighbours) >= if forwarder in candidates then slots / 2 else (slots + 1) / 2
    ensures !Panics(lucky, forwarder, neighbours, slots)
  {
    var half := Min((slots + 1) / 2, |lucky|);
    assert forall k :: 0 <= k < |lucky| ==> lucky[k] in Elements(lucky);
    if forwarder in candidates {
      InLongerPrefix(lucky, forwarder, 1, half);
      assert forwarder in lucky[..1];
    } else {
      assert forwarder !in lucky[..half];
    }
  }

  lemma UnluckyDrawPanics(draws: seq<EdgePeer>, candidates: set<EdgePeer>, forwarder: EdgePeer, neighbours: set<EdgePeer>, slots: nat)
    requires Orders(draws, candidates) && exists p :: p in candidates && Stranger(p, forwarder, neighbours)
    requires SafeDraws(candidates, forwarder, neighbours) < if forwarder in candidates then slots / 2 else (slots + 1) / 2
    ensures Panics(draws, forwarder, neighbours, slots)
  {
    var k, half := Reached(draws, forwarder, neighbours, slots), Min((slots + 1) / 2, |draws|);
    SafeDrawsBound(draws, candidates, forwarder, neighbours, k);
    StrangerBehind(draws, candidates, forwarder, neighbours, k);
    InLongerPrefix(draws, forwarder, k, half);
  }

  lemma StrangerBehind(draws: seq<EdgePeer>, candidates: set<EdgePeer>, forwarder: EdgePeer, neighbours: set<EdgePeer>, k: nat)
    requires Orders(draws, candidates) && exists p :: p in candidates && Stranger(p, forwarder, neighbours)
    requires k <= |draws| && forall j :: 0 <= j < k ==> !Stranger(draws[j], forwarder, neighbours)
    ensures k < |draws| && (forwarder in draws[..k] ==> forwarder in candidates)
  {
    InLongerPrefix(draws, forwarder, k, |draws|);
    assert draws[..|draws|] == draws;
    var p :| p in candidates && Stranger(p, forwarder, neighbours);
    assert p in Elements(draws);
    var j :| 0 <= j < |draws| && draws[j] == p;
    assert k <= j;
  }

  class LookupPeer {
    const self: EdgePeer
    const adjacents: AdjacentPeers
    const requests: RequestCache
    const requestCacheTtl: Time
    const maxContactable: int

    constructor (self: EdgePeer, adjacents: AdjacentPeers, requests: RequestCache, requestCacheTtl: Time, maxContactable: int)
      ensures this.self == self && this.adjacents == adjacents && this.requests == requests
      ensures this.requestCacheTtl == requestCacheTtl && this.maxContactable == maxContactable
    {
      this.self, this.adjacents, this.requests := self, adjacents, requests;
      this.requestCacheTtl, this.maxContactable := requestCacheTtl, maxContactable;
    }

    /** The neighbours whose filter says they may hold the file. */
    ghost function Positive(fileName: string): set<EdgePeer>
      reads adjacents
    {
      set n | n in adjacents.peerConns && n in adjacents.filterMap && adjacents.filterMap[n](fileName)
    }

    /** The senders of filters that say the file is not there, neighbours or not. */
    ghost function Negative(fileName: string): set<EdgePeer>
      reads adjacents
    {
      set n | n in adjacents.filterMap && !adjacents.filterMap[n](fileName)
    }

    /**
     Sends to one neighbour unless it is the forwarder.  A peer without a connection gives
     a nil client, and the call on it panics.
     */
    method ContactNeighbourForFileDownload(message: LookupMessage, adj: EdgePeer)
      returns (contacted: bool, sent: Option<Sent>, panicked: bool)
      ensures panicked <==> adj != message.request.forwarderPeer && adj !in adjacents.peerConns
      ensures contacted <==> adj != message.request.forwarderPeer && adj in adjacents.peerConns
      ensures sent == if contacted then Some(Sent(adj, Forward(message))) else None
    {
      contacted, sent, panicked := false, None, false;
      if adj != message.request.forwarderPeer {
        if adj !in adjacents.peerConns {
          panicked := true;
        } else {
          sent := Some(Sent(adj, message.(request := message.request.(forwarderPeer := self))));
          contacted := true;
        }
      }
    }

    ghost function Forward(message: LookupMessage): LookupMessage {
      message.(request := message.request.(forwarderPeer := self))
    }

    /** Every message of `sent` is this peer's copy of `message`. */
    ghost predicate Copies(sent: seq<Sent>, message: LookupMessage) {
      forall i :: 0 <= i < |sent| ==> sent[i].message == Forward(message)
    }

    method FindFalseAdjacentsFilter(fileName: string) returns (falseAdjacents: seq<EdgePeer>)
      ensures Distinct(falseAdjacents) && Elements(falseAdjacents) == Negative(fileName)
      ensures forall n :: n in falseAdjacents <==> n in adjacents.filterMap && !adjacents.filterMap[n](fileName)
    {
      falseAdjacents := [];
      var todo := adjacents.filterMap.Keys;
      while todo != {}
        invariant todo <= adjacents.filterMap.Keys
        invariant Distinct(falseAdjacents) && Elements(falseAdjacents) == Negative(fileName) - todo
        decreases todo
      {
        var adj :| adj in todo;
        todo := todo - {adj};
        if !adjacents.filterMap[adj](fileName) {
          ElementsOfOneMore(falseAdjacents, adj);
          falseAdjacents := falseAdjacents + [adj];
        }
      }
      MemberOfElements(falseAdjacents);
    }

    /** The first loop: neighbours with a positive filter, in any order, up to the limit. */
    method ContactPositive(message: LookupMessage) returns (sent: seq<Sent>)
      ensures Copies(sent, message)
      ensures LegalFanOut(Dests(sent), Positive(message.request.fileName), message.request.forwarderPeer, maxContactable)
      ensures var positive := Positive(message.request.fileName) - {message.request.forwarderPeer};
              |sent| == if maxContactable >= 1 then Min(|positive|, maxContactable) else |positive|
      ensures forall n :: n in Dests(sent) ==>
                n in adjacents.peerConns && n in adjacents.filterMap && adjacents.filterMap[n](message.request.fileName) &&
                n != message.request.forwarderPeer
      ensures maxContactable < 1 || |sent| < maxContactable ==>
                forall n :: n in adjacents.peerConns && n != message.request.forwarderPeer && n in adjacents.filterMap &&
                            adjacents.filterMap[n](message.request.fileName) ==>
                  n in Dests(sent)
    {
      sent := [];
      ghost var positive := Positive(message.request.fileName) - {message.request.forwarderPeer};
      var todo := adjacents.peerConns.Keys;
      while todo != {}
        invariant todo <= adjacents.peerConns.Keys
        invariant Copies(sent, message)
        invariant Distinct(Dests(sent)) && Elements(Dests(sent)) == positive - todo
        invariant maxContactable >= 1 ==> |sent| < maxContactable
        decreases todo
      {
        var adj :| adj in todo;
        OneMorePositive(Dests(sent), adj, positive, todo);
        todo := todo - {adj};
        if adj in adjacents.filterMap && adjacents.filterMap[adj](message.request.fileName) {
          var contacted, message', panicked := ContactNeighbourForFileDownload(message, adj);
          if contacted {
            DestsOneMore(sent, message'.value);
            sent := sent + [message'.value];
            if |sent| == maxContactable {
              break;
            }
          }
        }
      }
      FanOutSize(sent, positive);
      PositiveContacts(Dests(sent), message.request);
    }

    /** Contacted neighbours are those whose filter says they may hold the file. */
    lemma PositiveContacts(contacted: seq<EdgePeer>, request: FileRequest)
      requires Elements(contacted) <= Positive(request.fileName) - {request.forwarderPeer}
      ensures forall n :: n in contacted ==>
                n in adjacents.peerConns && n in adjacents.filterMap && adjacents.filterMap[n](request.fileName) &&
                n != request.forwarderPeer
      ensures Elements(contacted) == Positive(request.fileName) - {request.forwarderPeer} ==>
                forall n :: n in adjacents.peerConns && n != request.forwarderPeer && n in adjacents.filterMap &&
                            adjacents.filterMap[n](request.fileName) ==>
                  n in contacted
    {
      MemberOfElements(contacted);
    }

    lemma FanOutSize(sent: seq<Sent>, positive: set<EdgePeer>)
      requires Distinct(Dests(sent)) && Elements(Dests(sent)) <= positive
      ensures |sent| <= |positive|
      ensures Elements(Dests(sent)) == positive ==> |sent| == |positive|
    {
      DistinctLength(Dests(sent));
      SubsetSize(Elements(Dests(sent)), positive);
    }

    /**
     The second loop, over a shrinking slice.  Every run of the random generator draws the
     candidates in some order; `draws` is that order, continued after the loop has ended.
     */
    method ContactComplement(message: LookupMessage, falseNeighbours: seq<EdgePeer>, slots: nat, draws: seq<EdgePeer>)
      returns (sent: seq<Sent>, panicked: bool)
      requires Distinct(falseNeighbours) && Orders(draws, Elements(falseNeighbours))
      ensures Copies(sent, message)
      ensures panicked <==> Panics(draws, message.request.forwarderPeer, adjacents.peerConns.Keys, slots)
      ensures Dests(sent) == Others(draws[..Reached(draws, message.request.forwarderPeer, adjacents.peerConns.Keys, slots)],
                                    message.request.forwarderPeer)
    {
      ghost var forwarder, conns := message.request.forwarderPeer, adjacents.peerConns.Keys;
      ghost var last := DrawCount(draws, forwarder, slots);
      sent, panicked := [], false;
      var pool := falseNeighbours;
      var i := 0;
      SameLength(pool, draws);
      assert draws[0..] == draws;
      while i < slots - |sent|
        invariant i <= last && Distinct(pool) && Elements(pool) == Elements(draws[i..]) && |pool| == |draws| - i
        invariant Copies(sent, message) && Dests(sent) == Others(draws[..i], forwarder)
        invariant |sent| == if forwarder in draws[..i] then i - 1 else i
        invariant forall j :: 0 <= j < i ==> !Stranger(draws[j], forwarder, conns)
        decreases slots + 1 - i
      {
        DrawsOn(draws, forwarder, slots, i, |sent|);
        if |pool| == 0 {
          break;
        }
        OneMoreDrawn(draws, forwarder, i);
        assert draws[i] in Elements(pool);
        var randomInt: nat :| randomInt < |pool| && pool[randomInt] == draws[i];
        var randomNeigh := pool[randomInt];
        RemoveAt(pool, randomInt);
        var contacted, message', panic := ContactNeighbourForFileDownload(message, randomNeigh);
        if panic {
          ReachedIs(draws, forwarder, conns, slots, i);
          return sent, true;
        }
        if contacted {
          DestsOneMore(sent, message'.value);
          sent := sent + [message'.value];
        }
        pool := pool[..randomInt] + pool[randomInt + 1..];
        i := i + 1;
      }
      DrawsOn(draws, forwarder, slots, i, |sent|);
      ReachedIs(draws, forwarder, conns, slots, i);
    }

    /** The slots that the positive neighbours leave free. */
    ghost function FreeSlots(request: FileRequest): nat
      reads adjacents
    {
      var positive := |Positive(request.fileName) - {request.forwarderPeer}|;
      if positive < maxContactable then maxContactable - positive else 0
    }

    /** A forwarding call that draws in this order panics. */
    ghost predicate ForwardingPanics(request: FileRequest, draws: seq<EdgePeer>)
      reads adjacents
    {
      Panics(draws, request.forwarderPeer, adjacents.peerConns.Keys, FreeSlots(request))
    }

    /** Whom a forwarding call contacts: positive neighbours up to the limit, and then the drawn ones. */
    ghost predicate Contacts(contacted: seq<EdgePeer>, request: FileRequest, draws: seq<EdgePeer>)
      reads adjacents
    {
      var positive := Positive(request.fileName) - {request.forwarderPeer};
      var first := if maxContactable >= 1 then Min(|positive|, maxContactable) else |positive|;
      var reached := Reached(draws, request.forwarderPeer, adjacents.peerConns.Keys, FreeSlots(request));
      && first <= |contacted| && Elements(contacted[..first]) <= positive
      && contacted[first..] == Others(draws[..reached], request.forwarderPeer)
    }

    /**
     The forwarding step: the request is stamped first, then the neighbours are contacted.
     `draws` is the order in which candidates with a negative filter are drawn.
     */
    method NeighboursFileLookup(message: LookupMessage, now: Time, draws: seq<EdgePeer>) returns (sent: seq<Sent>, panicked: bool)
      requires Orders(draws, Negative(message.request.fileName))
      modifies requests
      ensures requests.requestMap == old(requests.requestMap)[message.request := now]
      ensures panicked <==> ForwardingPanics(message.request, draws)
      ensures Copies(sent, message) && Contacts(Dests(sent), message.request, draws)
      ensures LegalFanOut(Dests(sent), adjacents.peerConns.Keys, message.request.forwarderPeer, maxContactable)
      ensures forall i, j :: 0 <= i < j < |sent| ==> sent[i].dest != sent[j].dest
      ensures forall i :: 0 <= i < |sent| ==>
                && sent[i].dest in adjacents.peerConns && sent[i].dest != message.request.forwarderPeer
                && sent[i].message == message.(request := message.request.(forwarderPeer := self))
      ensures maxContactable >= 1 ==> |sent| <= maxContactable
      ensures !panicked && maxContactable >= 2 &&
              (exists n :: n in adjacents.peerConns && n in adjacents.filterMap && n != message.request.forwarderPeer) ==>
                sent != []
    {
      requests.AddRequestInCache(message.request, now);
      sent, panicked := ContactNeighbours(message, draws);
      SentOneByOne(sent, adjacents.peerConns.Keys, message.request.forwarderPeer);
      if n :| !panicked && maxContactable >= 2 && n in adjacents.peerConns && n in adjacents.filterMap && n != message.request.forwarderPeer {
        SomeoneIsContacted(Dests(sent), message.request, draws, n);
      }
    }

    /** A neighbour with a filter, whatever it says, is enough for a call with two slots to contact someone. */
    lemma SomeoneIsContacted(contacted: seq<EdgePeer>, request: FileRequest, draws: seq<EdgePeer>, n: EdgePeer)
      requires Orders(draws, Negative(request.fileName)) && Contacts(contacted, request, draws) && !ForwardingPanics(request, draws)
      requires maxContactable >= 2 && n in adjacents.peerConns && n in adjacents.filterMap && n != request.forwarderPeer
      ensures contacted != []
    {
      HalfOfFreeSlots(contacted, request, draws);
      var positive := Positive(request.fileName) - {request.forwarderPeer};
      if n in positive {
        assert |positive| >= 1 by { SubsetSize({n}, positive); }
      } else {
        assert n in Elements(draws);
        var k :| 0 <= k < |draws| && draws[k] == n;
        InLongerPrefix(draws, request.forwarderPeer, DrawCount(draws, request.forwarderPeer, FreeSlots(request)), |draws|);
        assert draws[..|draws|] == draws;
        TwoDrawn(draws, request.forwarderPeer, n);
      }
    }

    lemma SentOneByOne(sent: seq<Sent>, neighbours: set<EdgePeer>, forwarder: EdgePeer)
      requires Distinct(Dests(sent)) && Elements(Dests(sent)) <= neighbours - {forwarder}
      ensures forall i, j :: 0 <= i < j < |sent| ==> sent[i].dest != sent[j].dest
      ensures forall i :: 0 <= i < |sent| ==> sent[i].dest in neighbours && sent[i].dest != forwarder
    {
      forall i | 0 <= i < |sent|
        ensures sent[i].dest in neighbours && sent[i].dest != forwarder
      {
        assert Dests(sent)[i] in Elements(Dests(sent));
      }
      forall i, j | 0 <= i < j < |sent|
        ensures sent[i].dest != sent[j].dest
      {
        assert Dests(sent)[i] != Dests(sent)[j];
      }
    }

    lemma TwoDrawn(draws: seq<EdgePeer>, forwarder: EdgePeer, n: EdgePeer)
      requires n in draws && n != forwarder
      ensures |draws| >= 1 && (forwarder in draws ==> |draws| >= 2)
    {
    }

    /** Both loops. */
    method ContactNeighbours(message: LookupMessage, draws: seq<EdgePeer>) returns (sent: seq<Sent>, panicked: bool)
      requires Orders(draws, Negative(message.request.fileName))
      ensures panicked <==> ForwardingPanics(message.request, draws)
      ensures Copies(sent, message) && Contacts(Dests(sent), message.request, draws)
      ensures LegalFanOut(Dests(sent), adjacents.peerConns.Keys, message.request.forwarderPeer, maxContactable)
    {
      panicked := false;
      sent := ContactPositive(message);
      var more: seq<Sent> := [];
      if |sent| < maxContactable {
        var falseFiltersNeighbours := FindFalseAdjacentsFilter(message.request.fileName);
        var slots := maxContactable - |sent|;
        assert slots == FreeSlots(message.request);
        more, panicked := ContactComplement(message, falseFiltersNeighbours, slots, draws);
      } else {
        assert FreeSlots(message.request) == 0;
        NothingDrawn(draws, message.request.forwarderPeer, adjacents.peerConns.Keys);
      }
      BothFanOuts(sent, more, message.request, draws);
      sent := sent + more;
    }

    /** The positive neighbours contacted and the drawn candidates together. */
    lemma BothFanOuts(sent: seq<Sent>, more: seq<Sent>, request: FileRequest, draws: seq<EdgePeer>)
      requires Orders(draws, Negative(request.fileName))
      requires LegalFanOut(Dests(sent), Positive(request.fileName), request.forwarderPeer, maxContactable)
      requires var positive := |Positive(request.fileName) - {request.forwarderPeer}|;
               |sent| == if maxContactable >= 1 then Min(positive, maxContactable) else positive
      requires Dests(more) == Others(draws[..Reached(draws, request.forwarderPeer, adjacents.peerConns.Keys, FreeSlots(request))],
                                     request.forwarderPeer)
      ensures Contacts(Dests(sent + more), request, draws)
      ensures LegalFanOut(Dests(sent + more), adjacents.peerConns.Keys, request.forwarderPeer, maxContactable)
    {
      ComplementIsLegal(draws, request.forwarderPeer, adjacents.peerConns.Keys, FreeSlots(request));
      DestsOfJoin(sent, more);
      ElementsOfJoin(Dests(sent), Dests(more));
      DistinctOfJoin(Dests(sent), Dests(more));
    }

    /**
     How many are contacted unless the call panics: the positive neighbours up to the limit,
     and about half of the slots they leave free.
     */
    lemma HalfOfFreeSlots(contacted: seq<EdgePeer>, request: FileRequest, draws: seq<EdgePeer>)
      requires Distinct(draws) && Contacts(contacted, request, draws) && !ForwardingPanics(request, draws)
      ensures var positive, slots := |Positive(request.fileName) - {request.forwarderPeer}|, FreeSlots(request);
              |contacted| == (if maxContactable >= 1 then Min(positive, maxContactable) else positive) +
                             if request.forwarderPeer in draws[..DrawCount(draws, request.forwarderPeer, slots)]
                             then Min(slots / 2, |draws| - 1) else Min((slots + 1) / 2, |draws|)
    {
      HalfIsFilled(draws, request.forwarderPeer, FreeSlots(request));
    }

    /** Some random choice of a forwarding call panics exactly when a slot is free and a stranger's filter is negative. */
    lemma SomeForwardingPanicsIff(request: FileRequest)
      ensures (exists draws :: Orders(draws, Negative(request.fileName)) && ForwardingPanics(request, draws)) <==>
              && |Positive(request.fileName) - {request.forwarderPeer}| < maxContactable
              && Negative(request.fileName) - adjacents.peerConns.Keys - {request.forwarderPeer} != {}
    {
      var candidates, conns := Negative(request.fileName), adjacents.peerConns.Keys;
      SomeDrawPanicsIff(candidates, request.forwarderPeer, conns, FreeSlots(request));
      StrangersAmong(candidates, request.forwarderPeer, conns);
    }

    /** Every choice panics exactly when, besides, the negative neighbours cannot use up half of the free slots. */
    lemma EveryForwardingPanicsIff(request: FileRequest)
      ensures (forall draws :: Orders(draws, Negative(request.fileName)) ==> ForwardingPanics(request, draws)) <==>
              && Negative(request.fileName) - adjacents.peerConns.Keys - {request.forwarderPeer} != {}
              && SafeDraws(Negative(request.fileName), request.forwarderPeer, adjacents.peerConns.Keys) <
                 (if request.forwarderPeer in Negative(request.fileName) then FreeSlots(request) / 2 else (FreeSlots(request) + 1) / 2)
    {
      var candidates, conns := Negative(request.fileName), adjacents.peerConns.Keys;
      EveryDrawPanicsIff(candidates, request.forwarderPeer, conns, FreeSlots(request));
      StrangersAmong(candidates, request.forwarderPeer, conns);
    }

    /** The receiving step.  `cached` is whether the file is in this peer's cache. */
    method FileLookup(message: LookupMessage, cached: bool, now: Time, draws: seq<EdgePeer>)
      returns (handling: Handling, sent: seq<Sent>, panicked: bool)
      requires Orders(draws, Negative(message.request.fileName))
      modifies requests
      ensures handling == Outcome(old(requests.requestMap), message.request, message.ttl, cached, now, requestCacheTtl)
      ensures handling == Ignored <==>
                exists k :: k in old(requests.requestMap) && k.requestId == message.request.requestId &&
                            k.fileName == message.request.fileName && now <= old(requests.requestMap)[k] + requestCacheTtl
      ensures handling != Ignored ==> handling == if cached then Answered else if message.ttl > 1 then Forwarded else Ended
      ensures handling == Answered || handling == Forwarded ==>
                message.request in requests.requestMap && requests.requestMap[message.request] == now
      ensures requests.requestMap ==
              AfterHandling(old(requests.requestMap), message.request, message.ttl, cached, now, requestCacheTtl)
      ensures requests.requestMap == ApplyEvent(old(requests.requestMap), Lookup(message.request, message.ttl, cached, now), requestCacheTtl)
      ensures panicked <==> handling == Forwarded && ForwardingPanics(message.request, draws)
      ensures if handling == Forwarded then Contacts(Dests(sent), message.request, draws) else sent == []
      ensures Copies(sent, message.(ttl := message.ttl - 1))
      ensures LegalFanOut(Dests(sent), adjacents.peerConns.Keys, message.request.forwarderPeer, maxContactable)
    {
      sent, panicked := [], false;
      var served := requests.IsRequestAlreadyServed(message.request, now, requestCacheTtl);
      if served {
        return Ignored, sent, panicked;
      }
      var received := message.(ttl := message.ttl - 1);
      if !cached {
        if received.ttl > 0 {
          handling := Forwarded;
          sent, panicked := NeighboursFileLookup(received, now, draws);
        } else {
          handling := Ended;
        }
      } else {
        requests.AddRequestInCache(received.request, now);
        handling := Answered;
      }
    }
  }

  /**
   A peer without neighbours whose only filter comes from a peer it has no connection to,
   and lacks the file: every forwarding call for that file panics.
   */
  method StrangersFilterPanics(self: EdgePeer, stranger: EdgePeer, filter: Filter, message: LookupMessage,
                               ttl: Time, maxContactable: int, now: Time, draws: seq<EdgePeer>)
    returns (sent: seq<Sent>, panicked: bool)
    requires stranger != message.request.forwarderPeer && !filter(message.request.fileName) && maxContactable >= 1
    requires Orders(draws, {stranger})
    ensures panicked && sent == []
  {
    var adjacents := new AdjacentPeers();
    var requests := new RequestCache();
    var ok := adjacents.NotifyBloomFilter(stranger, Some(filter));
    var peer := new LookupPeer(self, adjacents, requests, ttl, maxContactable);
    assert peer.Positive(message.request.fileName) - {message.request.forwarderPeer} == {};
    assert peer.Negative(message.request.fileName) == {stranger};
    assert stranger in Elements(draws);
    DistinctLength(draws);
    assert draws == [stranger];
    sent, panicked := peer.NeighboursFileLookup(message, now, draws);
  }

  lemma DestsOneMore(sent: seq<Sent>, s: Sent)
    ensures Dests(sent + [s]) == Dests(sent) + [s.dest]
  {
  }

  lemma DestsOfJoin(s: seq<Sent>, t: seq<Sent>)
    ensures Dests(s + t) == Dests(s) + Dests(t)
  {
  }

  lemma OneMorePositive(contacted: seq<EdgePeer>, adj: EdgePeer, positive: set<EdgePeer>, todo: set<EdgePeer>)
    requires Distinct(contacted) && Elements(contacted) == positive - todo && adj in todo
    ensures adj in positive ==> Distinct(contacted + [adj]) && Elements(contacted + [adj]) == positive - (todo - {adj})
    ensures adj !in positive ==> Elements(contacted) == positive - (todo - {adj})
  {
    ElementsOfOneMore(contacted, adj);
  }

  lemma SameLength(s: seq<EdgePeer>, t: seq<EdgePeer>)
    requires Distinct(s) && Distinct(t) && Elements(s) == Elements(t)
    ensures |s| == |t|
  {
    DistinctLength(s);
    DistinctLength(t);
  }

  lemma ReachedIs(draws: seq<EdgePeer>, forwarder: EdgePeer, neighbours: set<EdgePeer>, slots: nat, k: nat)
    requires k <= DrawCount(draws, forwarder, slots)
    requires forall j :: 0 <= j < k ==> !Stranger(draws[j], forwarder, neighbours)
    requires k < DrawCount(draws, forwarder, slots) ==> Stranger(draws[k], forwarder, neighbours)
    ensures Reached(draws, forwarder, neighbours, slots) == k
  {
  }

  lemma NothingDrawn(draws: seq<EdgePeer>, forwarder: EdgePeer, neighbours: set<EdgePeer>)
    ensures !Panics(draws, forwarder, neighbours, 0)
    ensures Others(draws[..Reached(draws, forwarder, neighbours, 0)], forwarder) == []
  {
  }

  /** The drawn candidates that are contacted are distinct neighbours, and fit in the free slots. */
  lemma ComplementIsLegal(draws: seq<EdgePeer>, forwarder: EdgePeer, neighbours: set<EdgePeer>, slots: nat)
    requires Distinct(draws)
    ensures var contacted := Others(draws[..Reached(draws, forwarder, neighbours, slots)], forwarder);
            && Distinct(contacted) && |contacted| <= slots
            && Elements(contacted) <= Elements(draws) * neighbours - {forwarder}
  {
    var n := Reached(draws, forwarder, neighbours, slots);
    OthersAre(draws[..n], forwarder);
    forall p | p in Elements(draws[..n]) && p != forwarder
      ensures p in Elements(draws) * neighbours
    {
      var k :| 0 <= k < n && draws[..n][k] == p;
      assert draws[k] == p && !Stranger(p, forwarder, neighbours);
    }
    var half := Min((slots + 1) / 2, |draws|);
    InLongerPrefix(draws, forwarder, half, n);
  }

  lemma StrangersAmong(candidates: set<EdgePeer>, forwarder: EdgePeer, neighbours: set<EdgePeer>)
    ensures candidates - neighbours - {forwarder} != {} <==> exists p :: p in candidates && Stranger(p, forwarder, neighbours)
  {
    if p :| p in candidates && Stranger(p, forwarder, neighbours) {
      assert p in candidates - neighbours - {forwarder};
    }
    if p :| p in candidates - neighbours - {forwarder} {
      assert Stranger(p, forwarder, neighbours);
    }
  }

  lemma SubsetSize<T>(a: set<T>, b: set<T>)
    requires a <= b
    ensures |a| <= |b|
  {
    assert b == a + (b - a);
  }

  lemma RemoveAt(pool: seq<EdgePeer>, k: nat)
    requires Distinct(pool) && k < |pool|
    ensures Distinct(pool[..k] + pool[k + 1..])
    ensures Elements(pool[..k] + pool[k + 1..]) == Elements(pool) - {pool[k]}
    ensures pool[k] in Elements(pool)
  {
    var rest := pool[..k] + pool[k + 1..];
    forall p | p in Elements(pool) && p != pool[k]
      ensures p in Elements(rest)
    {
      var i :| 0 <= i < |pool| && pool[i] == p;
      assert p == if i < k then rest[i] else rest[i - 1];
    }
  }
}
