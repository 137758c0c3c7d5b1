/**
 The lookup flood as a protocol: messages in flight, handlers in progress and the duplicate
 filters of all peers, for one request over a fixed overlay.  A handler's check and its
 later stamp are separate steps, so handlers of one peer may interleave.
 */
module LookupFlood {
  import opened EdgePeers
  import opened Reachability
  import opened OverlayGraph
  import opened RequestCache
  import opened LookupForwarding

  /** The fixed surroundings of one flood. */
  datatype Flood = Flood(
    neighbours: Adjacency,
    origin: EdgePeer,
    fileName: string,
    requestId: string,
    requestTtl: nat,
    maxContactable: nat,
    window: Time,             // how long a stamped request is recognised
    start: Time)
  {
    predicate Valid() {
      && origin in neighbours
      && (forall p :: p in neighbours ==> neighbours[p] <= neighbours.Keys)
      && requestTtl >= 1 && maxContactable >= 1 && window >= 0
    }

    function Key(forwarder: EdgePeer): FileRequest {
      FileRequest(fileName, requestId, forwarder)
    }

    /** What a peer sends when it forwards: one message to each contacted neighbour. */
    ghost predicate Sends(from: EdgePeer, forwarder: EdgePeer, ttl: int, sent: seq<Sent>) {
      && from in neighbours
      && LegalFanOut(Dests(sent), neighbours[from], forwarder, maxContactable)
      && forall i :: 0 <= i < |sent| ==> sent[i].message == LookupMessage(Key(from), ttl)
    }
  }

  datatype State = State(
    inFlight: seq<Sent>,               // in no particular order
    accepted: seq<Sent>,               // past the check of their receiver, not yet finished
    stamps: map<EdgePeer, Stamps>,
    clock: Time,
    deliveries: nat,
    sends: nat,
    steps: nat,                        // protocol steps so far
    acceptedBy: seq<EdgePeer>)         // the peers whose check let the request through, oldest first

  datatype Step =
    | Tick(elapsed: Time)
    | OtherRequest(peer: EdgePeer, op: CacheOp)
    | Receive(i: nat)
    | Finish(j: nat, cached: bool, sent: seq<Sent>)
    | Lose(k: nat)

  function Without(s: seq<Sent>, i: nat): seq<Sent>
    requires i < |s|
  {
    s[..i] + s[i + 1..]
  }

  ghost predicate Init(f: Flood, s: State) {
    && s.stamps.Keys == f.neighbours.Keys
    && (forall p, k :: p in s.stamps && k in s.stamps[p] && SameRequest(k, f.Key(f.origin)) ==>
          p == f.origin && s.stamps[p][k] == f.start)
    && f.origin in s.stamps && f.Key(f.origin) in s.stamps[f.origin]
    && f.Sends(f.origin, f.origin, f.requestTtl, s.inFlight)
    && s.accepted == [] && s.acceptedBy == []
    && s.clock == f.start && s.deliveries == 0 && s.steps == 0 && s.sends == |s.inFlight|
  }

  ghost predicate Allowed(f: Flood, s: State, step: Step) {
    match step
    case Tick(elapsed) => elapsed >= 0
    case OtherRequest(p, op) => p in s.stamps && op.at == s.clock && !SameRequest(op.request, f.Key(f.origin))
    case Receive(i) => i < |s.inFlight| && s.inFlight[i].dest in s.stamps
    case Finish(j, cached, sent) =>
      && j < |s.accepted| && s.accepted[j].dest in s.stamps
      && var m := s.accepted[j];
         if cached || m.message.ttl - 1 <= 0 then sent == []
         else f.Sends(m.dest, m.message.request.forwarderPeer, m.message.ttl - 1, sent)
    case Lose(k) => k < |s.inFlight|
  }

  ghost function Apply(f: Flood, s: State, step: Step): State
    requires Allowed(f, s, step)
  {
    match step
    case Tick(elapsed) => s.(clock := s.clock + elapsed)
    case OtherRequest(p, op) => s.(stamps := s.stamps[p := ApplyOp(s.stamps[p], op, f.window)])
    case Receive(i) =>
      var m := s.inFlight[i];
      var stamps := s.stamps[m.dest];
      var checked := s.(inFlight := Without(s.inFlight, i), deliveries := s.deliveries + 1, steps := s.steps + 1,
                        stamps := s.stamps[m.dest := AfterCheck(stamps, m.message.request, s.clock, f.window)]);
      if Served(stamps, m.message.request, s.clock, f.window) then checked
      else checked.(accepted := s.accepted + [m], acceptedBy := s.acceptedBy + [m.dest])
    case Finish(j, cached, sent) =>
      var m := s.accepted[j];
      var done := s.(accepted := Without(s.accepted, j), steps := s.steps + 1);
      if cached || m.message.ttl - 1 > 0 then
        done.(inFlight := s.inFlight + sent, sends := s.sends + |sent|,
              stamps := s.stamps[m.dest := s.stamps[m.dest][m.message.request := s.clock]])
      else done
    case Lose(k) => s.(inFlight := Without(s.inFlight, k), steps := s.steps + 1)
  }

  ghost predicate IsRun(f: Flood, states: seq<State>, steps: seq<Step>) {
    && |states| == |steps| + 1
    && Init(f, states[0])
    && forall i {:trigger steps[i]} :: 0 <= i < |steps| ==>
         Allowed(f, states[i], steps[i]) && states[i + 1] == Apply(f, states[i], steps[i])
  }

  /** All that is asked of the surroundings: a closed overlay with the originator, and positive constants. */
  lemma ValidIff(f: Flood)
    ensures f.Valid() <==>
              && f.origin in f.neighbours && f.requestTtl >= 1 && f.maxContactable >= 1 && f.window >= 0
              && forall p, q :: p in f.neighbours && q in f.neighbours[p] ==> q in f.neighbours
  {
  }

  /** Runs start in every initial state and go on with every allowed step. */
  lemma RunGoesOn(f: Flood, states: seq<State>, steps: seq<Step>, s: State, step: Step)
    ensures Init(f, s) ==> IsRun(f, [s], [])
    ensures IsRun(f, states, steps) && Allowed(f, states[|steps|], step) ==>
              IsRun(f, states + [Apply(f, states[|steps|], step)], steps + [step])
  {
    if IsRun(f, states, steps) && Allowed(f, states[|steps|], step) {
      var moreStates, moreSteps := states + [Apply(f, states[|steps|], step)], steps + [step];
      forall i {:trigger moreSteps[i]} | 0 <= i < |moreSteps|
        ensures Allowed(f, moreStates[i], moreSteps[i]) && moreStates[i + 1] == Apply(f, moreStates[i], moreSteps[i])
      {
        assert i < |steps| ==> moreSteps[i] == steps[i];
      }
    }
  }

  // ----- Where messages are, and how far they got -----

  /** `p` is at most `n` hops from the originator. */
  ghost predicate WithinHops(f: Flood, p: EdgePeer, n: nat)
    decreases n
  {
    if n == 0 then p == f.origin
    else WithinHops(f, p, n - 1) ||
         exists q :: q in f.neighbours && WithinHops(f, q, n - 1) && p in f.neighbours[q]
  }

  /** A walk along the overlay from the originator. */
  ghost predicate Walk(f: Flood, walk: seq<EdgePeer>) {
    && walk != [] && walk[0] == f.origin
    && forall i :: 0 <= i < |walk| - 1 ==> walk[i] in f.neighbours && walk[i + 1] in f.neighbours[walk[i]]
  }

  lemma WalkOneMore(f: Flood, walk: seq<EdgePeer>, p: EdgePeer)
    requires Walk(f, walk) && walk[|walk| - 1] in f.neighbours && p in f.neighbours[walk[|walk| - 1]]
    ensures Walk(f, walk + [p])
  {
  }

  lemma {:induction false} HopsHaveWalk(f: Flood, p: EdgePeer, n: nat) returns (walk: seq<EdgePeer>)
    requires WithinHops(f, p, n)
    ensures Walk(f, walk) && |walk| <= n + 1 && walk[|walk| - 1] == p
    decreases n
  {
    if n == 0 {
      walk := [p];
    } else if WithinHops(f, p, n - 1) {
      walk := HopsHaveWalk(f, p, n - 1);
    } else {
      var q :| q in f.neighbours && WithinHops(f, q, n - 1) && p in f.neighbours[q];
      var front := HopsHaveWalk(f, q, n - 1);
      WalkOneMore(f, front, p);
      walk := front + [p];
    }
  }

  lemma {:induction false} WalkHasHops(f: Flood, walk: seq<EdgePeer>, n: nat)
    requires Walk(f, walk) && |walk| <= n + 1
    ensures WithinHops(f, walk[|walk| - 1], n)
    decreases n
  {
    if |walk| <= n {
      WalkHasHops(f, walk, n - 1);
    } else if n > 0 {
      var front := walk[..n];
      assert forall i :: 0 <= i < n ==> front[i] == walk[i];
      WalkHasHops(f, front, n - 1);
      var last := n - 1;
      assert walk[last] in f.neighbours && walk[last + 1] in f.neighbours[walk[last]];
    }
  }

  /** Within n hops means at the end of a walk of at most n edges. */
  lemma WithinHopsIffWalk(f: Flood, p: EdgePeer, n: nat)
    ensures WithinHops(f, p, n) <==> exists walk :: Walk(f, walk) && |walk| <= n + 1 && walk[|walk| - 1] == p
  {
    if WithinHops(f, p, n) {
      var walk := HopsHaveWalk(f, p, n);
    }
    if walk :| Walk(f, walk) && |walk| <= n + 1 && walk[|walk| - 1] == p {
      WalkHasHops(f, walk, n);
    }
  }

  /** The surroundings of a handler may do anything: time passes, other requests are stamped, messages are lost. */
  lemma AnythingElseIsAllowed(f: Flood, s: State, elapsed: Time, p: EdgePeer, op: CacheOp, k: nat)
    ensures elapsed >= 0 ==> Allowed(f, s, Tick(elapsed))
    ensures p in s.stamps && op.at == s.clock && (op.request.requestId != f.requestId || op.request.fileName != f.fileName) ==>
              Allowed(f, s, OtherRequest(p, op))
    ensures k < |s.inFlight| ==> Allowed(f, s, Lose(k))
    ensures k < |s.inFlight| && s.inFlight[k].dest in s.stamps ==> Allowed(f, s, Receive(k))
    ensures elapsed >= 0 ==> Apply(f, s, Tick(elapsed)) == s.(clock := s.clock + elapsed)
    ensures p in s.stamps && op.at == s.clock && (op.request.requestId != f.requestId || op.request.fileName != f.fileName) ==>
              Apply(f, s, OtherRequest(p, op)) == s.(stamps := s.stamps[p := ApplyOp(s.stamps[p], op, f.window)])
    ensures k < |s.inFlight| ==>
              Apply(f, s, Lose(k)) == s.(inFlight := s.inFlight[..k] + s.inFlight[k + 1..], steps := s.steps + 1)
  {
  }

  /** A message carries this request, has been forwarded its TTL allows, and got no further. */
  ghost predicate MessageOk(f: Flood, m: Sent) {
    && 1 <= m.message.ttl <= f.requestTtl
    && SameRequest(m.message.request, f.Key(f.origin))
    && m.dest in f.neighbours
    && WithinHops(f, m.dest, f.requestTtl - m.message.ttl + 1)
  }

  ghost predicate MessagesOk(f: Flood, s: State) {
    && s.stamps.Keys == f.neighbours.Keys
    && (forall i :: 0 <= i < |s.inFlight| ==> MessageOk(f, s.inFlight[i]))
    && (forall i :: 0 <= i < |s.accepted| ==> MessageOk(f, s.accepted[i]))
  }

  lemma SendsAreOk(f: Flood, from: EdgePeer, forwarder: EdgePeer, ttl: int, sent: seq<Sent>)
    requires f.Valid() && 1 <= ttl <= f.requestTtl && f.Sends(from, forwarder, ttl, sent)
    requires WithinHops(f, from, f.requestTtl - ttl)
    ensures forall i :: 0 <= i < |sent| ==> MessageOk(f, sent[i])
  {
    forall i | 0 <= i < |sent|
      ensures MessageOk(f, sent[i])
    {
      assert sent[i].dest == Dests(sent)[i] && sent[i].dest in Elements(Dests(sent));
    }
  }

  lemma StepKeepsMessagesOk(f: Flood, s: State, step: Step)
    requires f.Valid() && MessagesOk(f, s) && Allowed(f, s, step)
    ensures MessagesOk(f, Apply(f, s, step))
  {
    if step.Finish? && !step.cached && s.accepted[step.j].message.ttl - 1 > 0 {
      var m := s.accepted[step.j];
      SendsAreOk(f, m.dest, m.message.request.forwarderPeer, m.message.ttl - 1, step.sent);
    }
  }

  /**
   In every reachable state a message with TTL t is in 1..REQUEST_TTL and addressed to a
   peer at most REQUEST_TTL - t + 1 hops from the originator.
   */
  lemma {:induction false} MessagesStayNear(f: Flood, states: seq<State>, steps: seq<Step>)
    requires f.Valid() && IsRun(f, states, steps)
    ensures MessagesOk(f, states[|steps|])
    ensures forall i :: 0 <= i < |states[|steps|].inFlight| ==>
              var m := states[|steps|].inFlight[i];
              1 <= m.message.ttl <= f.requestTtl && WithinHops(f, m.dest, f.requestTtl - m.message.ttl + 1)
    decreases |steps|
  {
    if steps == [] {
      SendsAreOk(f, f.origin, f.origin, f.requestTtl, states[0].inFlight);
    } else {
      var n := |steps| - 1;
      RunPrefix(f, states, steps);
      MessagesStayNear(f, states[..n + 1], steps[..n]);
      StepKeepsMessagesOk(f, states[n], steps[n]);
    }
  }

  lemma RunPrefix(f: Flood, states: seq<State>, steps: seq<Step>)
    requires IsRun(f, states, steps) && steps != []
    ensures var n := |steps| - 1;
            && IsRun(f, states[..n + 1], steps[..n])
            && Allowed(f, states[n], steps[n]) && states[n + 1] == Apply(f, states[n], steps[n])
  {
    var n := |steps| - 1;
    forall i {:trigger steps[..n][i]} | 0 <= i < n
      ensures Allowed(f, states[..n + 1][i], steps[..n][i])
      ensures states[..n + 1][i + 1] == Apply(f, states[..n + 1][i], steps[..n][i])
    {
      assert steps[..n][i] == steps[i];
    }
    assert steps[n] == steps[n];
  }

  // ----- How much a flood can do -----

  /** The deliveries one message of this TTL can cause, itself included. */
  function Weight(k: nat, ttl: int): nat
    decreases if ttl < 0 then 0 else ttl
  {
    if ttl <= 0 then 0 else 1 + k * Weight(k, ttl - 1)
  }

  /** What is counted: deliveries, or all protocol steps. */
  datatype Measure = Deliveries | Steps

  function Cost(k: nat, what: Measure, m: Sent, accepted: bool): nat {
    match what
    case Deliveries => if accepted then k * Weight(k, m.message.ttl - 1) else Weight(k, m.message.ttl)
    case Steps => if accepted then 1 + Twice(what, k * Weight(k, m.message.ttl - 1)) else Twice(what, Weight(k, m.message.ttl))
  }

  function Total(k: nat, what: Measure, s: seq<Sent>, accepted: bool): nat {
    if s == [] then 0 else Total(k, what, s[..|s| - 1], accepted) + Cost(k, what, s[|s| - 1], accepted)
  }

  lemma {:induction false} TotalWithout(k: nat, what: Measure, s: seq<Sent>, accepted: bool, i: nat)
    requires i < |s|
    ensures Total(k, what, s, accepted) == Total(k, what, Without(s, i), accepted) + Cost(k, what, s[i], accepted)
  {
    if i < |s| - 1 {
      var front := s[..|s| - 1];
      TotalWithout(k, what, front, accepted, i);
      assert Without(s, i)[..|s| - 2] == Without(front, i);
    } else {
      assert Without(s, i) == s[..|s| - 1];
    }
  }

  lemma {:induction false} TotalJoin(k: nat, what: Measure, s: seq<Sent>, t: seq<Sent>, accepted: bool)
    ensures Total(k, what, s + t, accepted) == Total(k, what, s, accepted) + Total(k, what, t, accepted)
  {
    if t == [] {
      assert s + t == s;
    } else {
      assert (s + t)[..|s + t| - 1] == s + t[..|t| - 1];
      TotalJoin(k, what, s, t[..|t| - 1], accepted);
    }
  }

  lemma {:induction false} TotalSameTtl(k: nat, what: Measure, s: seq<Sent>, ttl: int)
    requires forall i :: 0 <= i < |s| ==> s[i].message.ttl == ttl
    ensures Total(k, what, s, false) == Twice(what, |s| * Weight(k, ttl))
  {
    if s != [] {
      TotalSameTtl(k, what, s[..|s| - 1], ttl);
      assert |s| * Weight(k, ttl) == (|s| - 1) * Weight(k, ttl) + Weight(k, ttl);
    }
  }

  /** Each delivery is two protocol steps: the check and the rest of the handler. */
  function Twice(what: Measure, n: nat): nat {
    if what.Steps? then 2 * n else n
  }

  /** One forwarding costs no more than what its message had left to cause. */
  lemma SendsCost(f: Flood, what: Measure, from: EdgePeer, forwarder: EdgePeer, ttl: int, sent: seq<Sent>)
    requires f.Valid() && f.Sends(from, forwarder, ttl, sent)
    ensures Total(f.maxContactable, what, sent, false) <=
            Twice(what, f.maxContactable * Weight(f.maxContactable, ttl))
  {
    TotalSameTtl(f.maxContactable, what, sent, ttl);
    assert |sent| <= f.maxContactable;
    MulMonotone(|sent|, f.maxContactable, Weight(f.maxContactable, ttl));
  }

  lemma MulMonotone(a: nat, b: nat, c: nat)
    requires a <= b
    ensures a * c <= b * c
  {
  }

  /** What is spent so far plus what the messages around can still cause. */
  function Potential(f: Flood, what: Measure, s: State): nat {
    (if what.Steps? then s.steps else s.deliveries) +
    Total(f.maxContactable, what, s.inFlight, false) + Total(f.maxContactable, what, s.accepted, true)
  }

  lemma TotalOneMore(k: nat, what: Measure, s: seq<Sent>, m: Sent, accepted: bool)
    ensures Total(k, what, s + [m], accepted) == Total(k, what, s, accepted) + Cost(k, what, m, accepted)
  {
    assert (s + [m])[..|s|] == s;
  }

  /** Receiving a message is one step of what it can cause. */
  lemma CostOfReceipt(k: nat, what: Measure, m: Sent)
    requires m.message.ttl >= 1
    ensures Cost(k, what, m, true) + 1 == Cost(k, what, m, false)
  {
  }

  lemma ReceiveSpends(f: Flood, what: Measure, s: State, i: nat)
    requires f.Valid() && MessagesOk(f, s) && Allowed(f, s, Receive(i))
    ensures Potential(f, what, Apply(f, s, Receive(i))) <= Potential(f, what, s)
  {
    var k, m := f.maxContactable, s.inFlight[i];
    assert MessageOk(f, m);
    TotalWithout(k, what, s.inFlight, false, i);
    TotalOneMore(k, what, s.accepted, m, true);
    CostOfReceipt(k, what, m);
  }

  lemma FinishSpends(f: Flood, what: Measure, s: State, step: Step)
    requires f.Valid() && step.Finish? && Allowed(f, s, step)
    ensures Potential(f, what, Apply(f, s, step)) <= Potential(f, what, s)
  {
    var k, m := f.maxContactable, s.accepted[step.j];
    TotalWithout(k, what, s.accepted, true, step.j);
    TotalJoin(k, what, s.inFlight, step.sent, false);
    assert Total(k, what, step.sent, false) <= Twice(what, k * Weight(k, m.message.ttl - 1)) by {
      if !step.cached && m.message.ttl - 1 > 0 {
        SendsCost(f, what, m.dest, m.message.request.forwarderPeer, m.message.ttl - 1, step.sent);
      }
    }
  }

  lemma LoseSpends(f: Flood, what: Measure, s: State, k: nat)
    requires f.Valid() && MessagesOk(f, s) && Allowed(f, s, Lose(k))
    ensures Potential(f, what, Apply(f, s, Lose(k))) <= Potential(f, what, s)
  {
    var contacts, m := f.maxContactable, s.inFlight[k];
    assert MessageOk(f, m);
    TotalWithout(contacts, what, s.inFlight, false, k);
    CostOfReceipt(contacts, what, m);
  }

  lemma {:induction false} PotentialNeverGrows(f: Flood, what: Measure, states: seq<State>, steps: seq<Step>)
    requires f.Valid() && IsRun(f, states, steps)
    ensures Potential(f, what, states[|steps|]) <= Potential(f, what, states[0])
    decreases |steps|
  {
    if steps != [] {
      var n := |steps| - 1;
      RunPrefix(f, states, steps);
      PotentialNeverGrows(f, what, states[..n + 1], steps[..n]);
      MessagesStayNear(f, states[..n + 1], steps[..n]);
      match steps[n]
      case Receive(i) => ReceiveSpends(f, what, states[n], i);
      case Finish(_, _, _) => FinishSpends(f, what, states[n], steps[n]);
      case Lose(k) => LoseSpends(f, what, states[n], k);
      case _ =>
    }
  }

  function Power(k: nat, n: nat): nat {
    if n == 0 then 1 else k * Power(k, n - 1)
  }

  /** K + K^2 + ... + K^n. */
  function PowerSum(k: nat, n: nat): nat {
    if n == 0 then 0 else PowerSum(k, n - 1) + Power(k, n)
  }

  lemma Distribute(k: nat, a: nat, b: nat)
    ensures k * (a + b) == k * a + k * b
  {
  }

  lemma {:induction false} PowerSumShift(k: nat, n: nat)
    ensures PowerSum(k, n + 1) == k + k * PowerSum(k, n)
  {
    if n > 0 {
      PowerSumShift(k, n - 1);
      Distribute(k, PowerSum(k, n - 1), Power(k, n));
    } else {
      assert Power(k, 1) == k;
    }
  }

  lemma {:induction false} WeightIsPowerSum(k: nat, ttl: nat)
    ensures k * Weight(k, ttl) == PowerSum(k, ttl)
  {
    if ttl > 0 {
      WeightIsPowerSum(k, ttl - 1);
      PowerSumShift(k, ttl - 1);
      TimesOneMore(k, k * Weight(k, ttl - 1), Weight(k, ttl));
    }
  }

  lemma TimesOneMore(k: nat, a: nat, b: nat)
    requires b == 1 + a
    ensures k * b == k + k * a
  {
  }

  /**
   Every flood ends: over any topology, whatever the duplicate filters do, there are at
   most K + K^2 + ... + K^REQUEST_TTL deliveries and twice as many protocol steps.
   */
  lemma FloodIsBounded(f: Flood, states: seq<State>, steps: seq<Step>)
    requires f.Valid() && IsRun(f, states, steps)
    ensures states[|steps|].deliveries <= PowerSum(f.maxContactable, f.requestTtl)
    ensures states[|steps|].steps <= 2 * PowerSum(f.maxContactable, f.requestTtl)
  {
    var k := f.maxContactable;
    PotentialNeverGrows(f, Deliveries, states, steps);
    PotentialNeverGrows(f, Steps, states, steps);
    SendsCost(f, Deliveries, f.origin, f.origin, f.requestTtl, states[0].inFlight);
    SendsCost(f, Steps, f.origin, f.origin, f.requestTtl, states[0].inFlight);
    WeightIsPowerSum(k, f.requestTtl);
  }

  /** With the shipped constants, five contacts and ten hops, that is about twelve million deliveries. */
  lemma ShippedFloodBound(f: Flood, states: seq<State>, steps: seq<Step>)
    requires f.Valid() && IsRun(f, states, steps) && f.maxContactable == 5 && f.requestTtl == 10
    ensures states[|steps|].deliveries <= 12_207_030
  {
    FloodIsBounded(f, states, steps);
    PowersOfFive();
  }

  lemma PowersOfFive()
    ensures PowerSum(5, 10) == 12_207_030
  {
    assert Power(5, 1) == 5 && Power(5, 2) == 25 && Power(5, 3) == 125 && Power(5, 4) == 625 && Power(5, 5) == 3125;
    assert Power(5, 6) == 15625 && Power(5, 7) == 78125 && Power(5, 8) == 390625 && Power(5, 9) == 1953125 && Power(5, 10) == 9765625;
    assert PowerSum(5, 2) == 30 && PowerSum(5, 4) == 780 && PowerSum(5, 6) == 19530 && PowerSum(5, 8) == 488280;
  }

  // ----- A flood inside one time-to-live window -----

  /** A peer that already stamped this request. */
  predicate Stamped(f: Flood, s: State, p: EdgePeer) {
    p in s.stamps && exists k :: k in s.stamps[p] && SameRequest(k, f.Key(f.origin))
  }

  /** Stamps of this request all come from this flood, so none expires inside the window. */
  ghost predicate WindowInvariant(f: Flood, s: State) {
    && f.start <= s.clock
    && (forall p, k :: p in s.stamps && k in s.stamps[p] && SameRequest(k, f.Key(f.origin)) ==> f.start <= s.stamps[p][k])
    && Stamped(f, s, f.origin)
    && (forall i :: 0 <= i < |s.acceptedBy| ==> Stamped(f, s, s.acceptedBy[i]) && s.acceptedBy[i] != f.origin)
    && Distinct(s.acceptedBy)
    && s.sends + f.maxContactable * |s.accepted| <= f.maxContactable * (1 + |s.acceptedBy|)
  }

  lemma OtherKeepsStamped(f: Flood, s: State, step: Step, p: EdgePeer)
    requires f.Valid() && WindowInvariant(f, s) && s.clock <= f.start + f.window
    requires step.OtherRequest? && Allowed(f, s, step)
    ensures Stamped(f, Apply(f, s, step), p) <==> Stamped(f, s, p)
  {
    var t := Apply(f, s, step);
    if Stamped(f, s, p) {
      var k :| k in s.stamps[p] && SameRequest(k, f.Key(f.origin));
      assert k in t.stamps[p];
    }
  }

  lemma OtherKeepsWindow(f: Flood, s: State, step: Step)
    requires f.Valid() && WindowInvariant(f, s) && s.clock <= f.start + f.window
    requires step.OtherRequest? && Allowed(f, s, step)
    ensures WindowInvariant(f, Apply(f, s, step))
  {
    OtherKeepsStamped(f, s, step, f.origin);
    forall i | 0 <= i < |s.acceptedBy|
      ensures Stamped(f, Apply(f, s, step), s.acceptedBy[i])
    {
      OtherKeepsStamped(f, s, step, s.acceptedBy[i]);
    }
  }

  /** Inside the window a check recognises the request exactly when its peer stamped it before. */
  lemma CheckInWindow(f: Flood, s: State, i: nat)
    requires f.Valid() && WindowInvariant(f, s) && MessagesOk(f, s) && s.clock <= f.start + f.window
    requires Allowed(f, s, Receive(i))
    ensures var m := s.inFlight[i];
            Served(s.stamps[m.dest], m.message.request, s.clock, f.window) <==> Stamped(f, s, m.dest)
    ensures forall p :: Stamped(f, Apply(f, s, Receive(i)), p) <==> Stamped(f, s, p) || p == s.inFlight[i].dest
  {
    var m, t := s.inFlight[i], Apply(f, s, Receive(i));
    assert MessageOk(f, m);
    assert m.message.request in t.stamps[m.dest];
    forall p | Stamped(f, s, p)
      ensures Stamped(f, t, p)
    {
      var k :| k in s.stamps[p] && SameRequest(k, f.Key(f.origin));
      assert k in t.stamps[p];
    }
  }

  lemma ReceiveKeepsWindow(f: Flood, s: State, i: nat)
    requires f.Valid() && WindowInvariant(f, s) && MessagesOk(f, s) && s.clock <= f.start + f.window
    requires Allowed(f, s, Receive(i))
    ensures WindowInvariant(f, Apply(f, s, Receive(i)))
  {
    CheckInWindow(f, s, i);
    var m := s.inFlight[i];
    ElementsOfOneMore(s.acceptedBy, m.dest);
  }

  lemma FinishKeepsWindow(f: Flood, s: State, step: Step)
    requires f.Valid() && WindowInvariant(f, s) && MessagesOk(f, s) && s.clock <= f.start + f.window
    requires step.Finish? && Allowed(f, s, step)
    ensures WindowInvariant(f, Apply(f, s, step))
  {
    var t, m := Apply(f, s, step), s.accepted[step.j];
    assert MessageOk(f, m);
    assert |step.sent| <= f.maxContactable;
    assert f.maxContactable * |s.accepted| == f.maxContactable * |t.accepted| + f.maxContactable;
    forall p | Stamped(f, s, p)
      ensures Stamped(f, t, p)
    {
      var k :| k in s.stamps[p] && SameRequest(k, f.Key(f.origin));
      assert k in t.stamps[p];
    }
  }

  lemma {:induction false} WindowInvariantHolds(f: Flood, states: seq<State>, steps: seq<Step>)
    requires f.Valid() && IsRun(f, states, steps)
    requires forall i :: 0 <= i < |states| ==> states[i].clock <= f.start + f.window
    ensures WindowInvariant(f, states[|steps|])
    decreases |steps|
  {
    if steps == [] {
      assert Stamped(f, states[0], f.origin);
    } else {
      var n := |steps| - 1;
      RunPrefix(f, states, steps);
      WindowInvariantHolds(f, states[..n + 1], steps[..n]);
      MessagesStayNear(f, states[..n + 1], steps[..n]);
      match steps[n]
      case OtherRequest(_, _) => OtherKeepsWindow(f, states[n], steps[n]);
      case Receive(i) => ReceiveKeepsWindow(f, states[n], i);
      case Finish(_, _, _) => FinishKeepsWindow(f, states[n], steps[n]);
      case _ =>
    }
  }

  /**
   A flood that stays inside one window: every peer lets the request through at most once,
   the originator never does, and at most K messages are sent per peer.
   */
  lemma WindowedFloodIsSparse(f: Flood, states: seq<State>, steps: seq<Step>)
    requires f.Valid() && IsRun(f, states, steps)
    requires forall i :: 0 <= i < |states| ==> states[i].clock <= f.start + f.window
    ensures Distinct(states[|steps|].acceptedBy) && f.origin !in states[|steps|].acceptedBy
    ensures states[|steps|].sends <= f.maxContactable * |f.neighbours|
  {
    WindowInvariantHolds(f, states, steps);
    MessagesStayNear(f, states, steps);
    SparseState(f, states[|steps|]);
  }

  lemma SparseState(f: Flood, s: State)
    requires WindowInvariant(f, s) && s.stamps.Keys == f.neighbours.Keys
    ensures f.origin !in s.acceptedBy
    ensures s.sends <= f.maxContactable * |f.neighbours|
  {
    AcceptedByCount(f, s);
    ScaledBound(f.maxContactable, s.sends, |s.accepted|, 1 + |s.acceptedBy|, |f.neighbours|);
  }

  lemma AcceptedByCount(f: Flood, s: State)
    requires WindowInvariant(f, s) && s.stamps.Keys == f.neighbours.Keys
    ensures f.origin !in s.acceptedBy && 1 + |s.acceptedBy| <= |f.neighbours|
  {
    var peers := s.acceptedBy + [f.origin];
    ElementsOfOneMore(s.acceptedBy, f.origin);
    DistinctLength(peers);
    assert Elements(peers) <= f.neighbours.Keys;
    SubsetSize(Elements(peers), f.neighbours.Keys);
  }

  lemma ScaledBound(k: nat, sends: nat, pending: nat, a: nat, b: nat)
    requires sends + k * pending <= k * a && a <= b
    ensures sends <= k * b
  {
    MulMonotone(a, b, k);
  }

  // ----- The atomic handler of a peer is a special case -----

  /**
   A whole lookup handler run without interruption, as its own peer specifies it, is the
   receiving step followed by the finishing step.
   */
  lemma AtomicHandlerRefines(f: Flood, s: State, i: nat, cached: bool, sent: seq<Sent>)
    requires f.Valid() && MessagesOk(f, s) && i < |s.inFlight|
    requires var m := s.inFlight[i];
             var handling := Outcome(s.stamps[m.dest], m.message.request, m.message.ttl, cached, s.clock, f.window);
             if handling == Forwarded then f.Sends(m.dest, m.message.request.forwarderPeer, m.message.ttl - 1, sent)
             else sent == []
    ensures var m := s.inFlight[i];
            var stamps := s.stamps[m.dest];
            var handling := Outcome(stamps, m.message.request, m.message.ttl, cached, s.clock, f.window);
            var after := AfterHandling(stamps, m.message.request, m.message.ttl, cached, s.clock, f.window);
            && Allowed(f, s, Receive(i))
            && var t := Apply(f, s, Receive(i));
               if handling == Ignored then t.stamps == s.stamps[m.dest := after] && t.accepted == s.accepted
               else
                 var finish := Finish(|s.accepted|, cached, sent);
                 && Allowed(f, t, finish)
                 && Apply(f, t, finish).stamps == s.stamps[m.dest := after]
                 && Apply(f, t, finish).accepted == s.accepted
                 && Apply(f, t, finish).inFlight == Without(s.inFlight, i) + sent
  {
    assert MessageOk(f, s.inFlight[i]);
  }

  // ----- The peers' own handlers as steps of the protocol -----

  /** The peer is one of the overlay, with the flood's constants and its own table of stamps. */
  ghost predicate PeerOf(f: Flood, peer: LookupPeer, stamps: map<EdgePeer, Stamps>)
    reads peer.adjacents, peer.requests
  {
    && peer.self in f.neighbours && peer.adjacents.peerConns.Keys == f.neighbours[peer.self]
    && peer.maxContactable == f.maxContactable && peer.requestCacheTtl == f.window
    && peer.self in stamps && peer.requests.requestMap == stamps[peer.self]
  }

  lemma PeerOfIff(f: Flood, peer: LookupPeer, stamps: map<EdgePeer, Stamps>)
    ensures PeerOf(f, peer, stamps) <==>
              && peer.self in f.neighbours && peer.self in stamps && peer.requests.requestMap == stamps[peer.self]
              && (forall q :: q in peer.adjacents.peerConns <==> q in f.neighbours[peer.self])
              && peer.maxContactable == f.maxContactable && peer.requestCacheTtl == f.window
  {
    if peer.self in f.neighbours && forall q :: q in peer.adjacents.peerConns <==> q in f.neighbours[peer.self] {
      assert peer.adjacents.peerConns.Keys == f.neighbours[peer.self];
    }
  }

  /** What a forwarding call sends is what the protocol lets the peer send. */
  lemma ForwardingSends(f: Flood, peer: LookupPeer, stamps: map<EdgePeer, Stamps>, message: LookupMessage, sent: seq<Sent>)
    requires PeerOf(f, peer, stamps) && f.maxContactable >= 1
    requires message.request == f.Key(message.request.forwarderPeer) && peer.Copies(sent, message)
    requires LegalFanOut(Dests(sent), peer.adjacents.peerConns.Keys, message.request.forwarderPeer, peer.maxContactable)
    ensures f.Sends(peer.self, message.request.forwarderPeer, message.ttl, sent)
  {
  }

  /** The state of the protocol after message `i` was handled. */
  ghost function AfterMessage(f: Flood, s: State, i: nat, handling: Handling, cached: bool, sent: seq<Sent>): State
    requires Allowed(f, s, Receive(i))
    requires handling != Ignored ==> Allowed(f, Apply(f, s, Receive(i)), Finish(|s.accepted|, cached, sent))
  {
    if handling == Ignored then Apply(f, s, Receive(i))
    else Apply(f, Apply(f, s, Receive(i)), Finish(|s.accepted|, cached, sent))
  }

  /** The handler of a peer that receives message `i` makes allowed steps of the protocol, with the same stamps. */
  method HandleMessage(f: Flood, peer: LookupPeer, message: LookupMessage, cached: bool, now: Time, draws: seq<EdgePeer>,
                       ghost s: State, ghost i: nat)
    returns (handling: Handling, sent: seq<Sent>, panicked: bool)
    requires f.Valid() && MessagesOk(f, s) && PeerOf(f, peer, s.stamps) && s.clock == now
    requires i < |s.inFlight| && s.inFlight[i] == Sent(peer.self, message)
    requires Orders(draws, peer.Negative(message.request.fileName))
    modifies peer.requests
    ensures Allowed(f, s, Receive(i))
    ensures handling != Ignored ==> Allowed(f, Apply(f, s, Receive(i)), Finish(|s.accepted|, cached, sent))
    ensures PeerOf(f, peer, AfterMessage(f, s, i, handling, cached, sent).stamps)
    ensures AfterMessage(f, s, i, handling, cached, sent).inFlight == Without(s.inFlight, i) + sent
    ensures var t := AfterMessage(f, s, i, handling, cached, sent);
            && t.deliveries == s.deliveries + 1 && t.sends == s.sends + |sent| && t.clock == s.clock
            && t.steps == s.steps + (if handling == Ignored then 1 else 2)
            && t.acceptedBy == s.acceptedBy + (if handling == Ignored then [] else [peer.self])
            && t.accepted == s.accepted
  {
    assert MessageOk(f, s.inFlight[i]);
    handling, sent, panicked := peer.FileLookup(message, cached, now, draws);
    if handling == Forwarded {
      ForwardingSends(f, peer, s.stamps[peer.self := peer.requests.requestMap], message.(ttl := message.ttl - 1), sent);
    }
    AtomicHandlerRefines(f, s, i, cached, sent);
    assert Without(s.inFlight, i) + [] == Without(s.inFlight, i);
  }

  /** The originator's own forwarding call puts the protocol in an initial state. */
  method StartLookup(f: Flood, peer: LookupPeer, draws: seq<EdgePeer>, ghost stamps: map<EdgePeer, Stamps>)
    returns (sent: seq<Sent>, panicked: bool, ghost s: State)
    requires f.Valid() && PeerOf(f, peer, stamps) && peer.self == f.origin && stamps.Keys == f.neighbours.Keys
    requires forall p, k :: p in stamps && k in stamps[p] ==> !SameRequest(k, f.Key(f.origin))
    requires Orders(draws, peer.Negative(f.fileName))
    modifies peer.requests
    ensures Init(f, s) && s.inFlight == sent && PeerOf(f, peer, s.stamps)
    ensures s.sends == |sent| && s.deliveries == s.steps == 0 && s.clock == f.start && s.acceptedBy == []
  {
    var message := LookupMessage(f.Key(f.origin), f.requestTtl);
    sent, panicked := peer.NeighboursFileLookup(message, f.start, draws);
    var after := stamps[f.origin := peer.requests.requestMap];
    ForwardingSends(f, peer, after, message, sent);
    s := State(sent, [], after, f.start, 0, |sent|, 0, []);
  }
}
