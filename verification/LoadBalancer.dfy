/**
 The load balancer: clients are sent to a least loaded edge server, loads are corrected by
 the reports in the heartbeats, and silent servers are dropped.
 */
module LoadBalancer {
  import opened EdgePeers
  import opened HeartbeatExpiry

  datatype EdgeServer = EdgeServer(serverAddr: string)

  type Loads = map<EdgeServer, int>

  const MAX_INT: int := 0x7FFF_FFFF_FFFF_FFFF
  const MIN_INT: int := -0x8000_0000_0000_0000

  /** Go's 64-bit addition of one. */
  function Incremented(load: int): int {
    if load == MAX_INT then MIN_INT else load + 1
  }

  /** Go's conversion of a floating-point value to an integer drops the fraction. */
  function Truncated(x: real): int {
    if x >= 0.0 then x.Floor else -((-x).Floor)
  }

  /** The weighted mean of the recorded load and the reported one. */
  function Weighted(load: int, report: int, w: real): int {
    Truncated(load as real * (1.0 - w) + report as real * w)
  }

  ghost predicate LeastLoaded(m: Loads, s: EdgeServer) {
    s in m && forall t :: t in m ==> m[s] <= m[t]
  }

  class BalancingServiceServer {
    var edgeServerMap: Loads
    var heartbeatCheckTime: Time
    var heartbeats: map<EdgeServer, Time>
    var sequenceNumber: nat

    ghost predicate Valid()
      reads this
    {
      && edgeServerMap.Keys == heartbeats.Keys
      && forall s :: s in edgeServerMap ==> MIN_INT <= edgeServerMap[s] <= MAX_INT
    }

    ghost function Membership(): Members<EdgeServer>
      reads this
    {
      Members(heartbeats, heartbeatCheckTime)
    }

    constructor (now: Time, sequenceNumber: nat)
      ensures Valid() && edgeServerMap == map[] && Membership() == Members(map[], now)
      ensures this.sequenceNumber == sequenceNumber
    {
      edgeServerMap, heartbeats, heartbeatCheckTime := map[], map[], now;
      this.sequenceNumber := sequenceNumber;
    }

    /** A server of minimum load, whichever order the map is visited in; its load grows by one. */
    method PickEdgeServer() returns (picked: Option<EdgeServer>)
      requires Valid()
      modifies this`edgeServerMap
      ensures Valid() && edgeServerMap.Keys == heartbeats.Keys
      ensures picked == None <==> old(edgeServerMap) == map[]
      ensures picked == None ==> edgeServerMap == old(edgeServerMap)
      ensures picked.Some? ==>
                && picked.value in old(edgeServerMap)
                && (forall s :: s in old(edgeServerMap) ==> old(edgeServerMap)[picked.value] <= old(edgeServerMap)[s])
                && (old(edgeServerMap)[picked.value] < MAX_INT ==>
                      edgeServerMap == old(edgeServerMap)[picked.value := old(edgeServerMap)[picked.value] + 1])
                && edgeServerMap == old(edgeServerMap)[picked.value := Incremented(old(edgeServerMap)[picked.value])]
                && (old(edgeServerMap)[picked.value] < MAX_INT ==> PickStep(old(edgeServerMap), edgeServerMap, picked.value))
    {
      if |edgeServerMap| == 0 {
        return None;
      }
      var minLoadEdgeSlice: seq<EdgeServer> := [];
      var minLoadValue := MAX_INT;
      var todo := edgeServerMap.Keys;
      while todo != {}
        invariant todo <= edgeServerMap.Keys && minLoadValue <= MAX_INT
        invariant forall s :: s in edgeServerMap.Keys - todo ==> minLoadValue <= edgeServerMap[s]
        invariant forall s :: s in minLoadEdgeSlice ==> s in edgeServerMap && edgeServerMap[s] == minLoadValue
        invariant forall s :: s in edgeServerMap.Keys - todo && edgeServerMap[s] == minLoadValue ==> s in minLoadEdgeSlice
        invariant todo != edgeServerMap.Keys ==> minLoadEdgeSlice != []
        invariant minLoadEdgeSlice == [] ==> minLoadValue == MAX_INT
        decreases todo
      {
        var edgeServer :| edgeServer in todo;
        todo := todo - {edgeServer};
        var serverLoad := edgeServerMap[edgeServer];
        if serverLoad < minLoadValue {
          minLoadValue := serverLoad;
          minLoadEdgeSlice := [edgeServer];
        } else if serverLoad == minLoadValue {
          minLoadEdgeSlice := minLoadEdgeSlice + [edgeServer];
        }
      }
      var minIndex := sequenceNumber % |minLoadEdgeSlice|;
      var minLoadEdge := minLoadEdgeSlice[minIndex];
      assert minLoadEdge in minLoadEdgeSlice;
      edgeServerMap := edgeServerMap[minLoadEdge := Incremented(edgeServerMap[minLoadEdge])];
      picked := Some(minLoadEdge);
    }

    /** A client's request for an edge: only an answered one uses up a request id. */
    method GetEdge(authorized: bool) returns (reply: Option<(EdgeServer, nat)>)
      requires Valid()
      modifies this`edgeServerMap, this`sequenceNumber
      ensures Valid() && edgeServerMap.Keys == heartbeats.Keys
      ensures reply.Some? <==> authorized && old(edgeServerMap) != map[]
      ensures reply == None ==> edgeServerMap == old(edgeServerMap) && sequenceNumber == old(sequenceNumber)
      ensures reply.Some? ==>
                && reply.value.0 in old(edgeServerMap)
                && (forall s :: s in old(edgeServerMap) ==> old(edgeServerMap)[reply.value.0] <= old(edgeServerMap)[s])
                && (old(edgeServerMap)[reply.value.0] < MAX_INT ==>
                      edgeServerMap == old(edgeServerMap)[reply.value.0 := old(edgeServerMap)[reply.value.0] + 1])
                && edgeServerMap == old(edgeServerMap)[reply.value.0 := Incremented(old(edgeServerMap)[reply.value.0])]
                && reply.value.1 == old(sequenceNumber) && sequenceNumber == old(sequenceNumber) + 1
    {
      if !authorized {
        return None;
      }
      var picked := PickEdgeServer();
      if picked == None {
        return None;
      }
      var newRequestId := sequenceNumber;
      sequenceNumber := sequenceNumber + 1;
      reply := Some((picked.value, newRequestId));
    }

    method NotifyJobEnd(edgeServer: EdgeServer)
      requires Valid()
      modifies this`edgeServerMap
      ensures Valid() && edgeServerMap.Keys == heartbeats.Keys
      ensures edgeServerMap.Keys == old(edgeServerMap).Keys
      ensures forall s :: s in edgeServerMap ==>
                edgeServerMap[s] == old(edgeServerMap)[s] - if s == edgeServer && old(edgeServerMap)[s] > 0 then 1 else 0
    {
      if edgeServer in edgeServerMap && edgeServerMap[edgeServer] > 0 {
        edgeServerMap := edgeServerMap[edgeServer := edgeServerMap[edgeServer] - 1];
      }
    }

    /** A heartbeat: a new server's load is taken over, a known one's is averaged in. */
    method Heartbeat(edgeServer: EdgeServer, currentLoad: nat, weight: real, now: Time)
      requires Valid() && 0.0 < weight <= 1.0 && currentLoad <= MAX_INT
      modifies this`edgeServerMap, this`heartbeats
      ensures Valid() && edgeServerMap.Keys == heartbeats.Keys
      ensures heartbeats == old(heartbeats)[edgeServer := now]
      ensures Membership() == Apply(old(Membership()), Heard(edgeServer, now), 0)
      ensures edgeServer in old(edgeServerMap) ==>
                var exact := old(edgeServerMap)[edgeServer] as real * (1.0 - weight) + currentLoad as real * weight;
                && edgeServer in edgeServerMap
                && (exact >= 0.0 ==> edgeServerMap[edgeServer] as real <= exact < (edgeServerMap[edgeServer] + 1) as real)
                && (exact < 0.0 ==> (edgeServerMap[edgeServer] - 1) as real < exact <= edgeServerMap[edgeServer] as real)
      ensures edgeServerMap == old(edgeServerMap)[edgeServer :=
                if edgeServer in old(edgeServerMap) then Weighted(old(edgeServerMap)[edgeServer], currentLoad, weight)
                else currentLoad]
    {
      if edgeServer !in heartbeats {
        edgeServerMap := edgeServerMap[edgeServer := currentLoad];
      } else {
        var weightedCurrentLoad := edgeServerMap[edgeServer] as real * (1.0 - weight);
        var weightedReceivedLoad := currentLoad as real * weight;
        WeightedInRange(edgeServerMap[edgeServer], currentLoad, weight);
        edgeServerMap := edgeServerMap[edgeServer := Truncated(weightedCurrentLoad + weightedReceivedLoad)];
      }
      heartbeats := heartbeats[edgeServer := now];
    }

    /** Drops every server whose heartbeat is too old at the PREVIOUS check. */
    method CheckForDeadServers(heartbeatThr: Time, now: Time)
      requires Valid()
      modifies this`edgeServerMap, this`heartbeats, this`heartbeatCheckTime
      ensures Valid() && edgeServerMap.Keys == heartbeats.Keys
      ensures heartbeatCheckTime == now
      ensures forall s :: s in heartbeats <==>
                s in old(heartbeats) && old(heartbeatCheckTime) - old(heartbeats)[s] <= heartbeatThr
      ensures forall s :: s in heartbeats ==> heartbeats[s] == old(heartbeats)[s]
      ensures Membership() == Apply(old(Membership()), Check(now), heartbeatThr)
      ensures forall s :: s in edgeServerMap ==> edgeServerMap[s] == old(edgeServerMap)[s]
    {
      var lastCheckTime := heartbeatCheckTime;
      var todo := heartbeats.Keys;
      while todo != {}
        invariant todo <= heartbeats.Keys <= old(heartbeats).Keys && Valid()
        invariant lastCheckTime == heartbeatCheckTime == old(heartbeatCheckTime)
        invariant forall s :: s in heartbeats ==> heartbeats[s] == old(heartbeats)[s]
        invariant forall s :: s in edgeServerMap ==> edgeServerMap[s] == old(edgeServerMap)[s]
        invariant forall s :: s in old(heartbeats) && s !in todo ==>
                    (s in heartbeats <==> !Stale(old(heartbeats)[s], lastCheckTime, heartbeatThr))
        decreases todo
      {
        var edgeServer :| edgeServer in todo;
        todo := todo - {edgeServer};
        if lastCheckTime - heartbeats[edgeServer] > heartbeatThr {
          if edgeServer in edgeServerMap {
            edgeServerMap := edgeServerMap - {edgeServer};
          }
          heartbeats := heartbeats - {edgeServer};
        }
      }
      heartbeatCheckTime := now;
      assert heartbeats == Survivors(old(heartbeats), lastCheckTime, heartbeatThr);
    }
  }

  // ----- Repeated reports -----

  lemma WeightedGap(gap: real, w: real) returns (d: real)
    requires 0.0 < w <= 1.0 && 0.0 <= gap
    ensures d == gap * w && 0.0 <= d && d <= gap
    ensures gap > 0.0 ==> d > 0.0
  {
    d := gap * w;
    assert gap * (1.0 - w) == gap - gap * w;
    assert gap * (1.0 - w) >= 0.0;
  }

  /** The exact mean of `a` and `b` is each of them moved towards the other by the weighted gap. */
  lemma MeanIsBetween(a: real, b: real, w: real) returns (d: real)
    requires 0.0 < w <= 1.0 && a <= b
    ensures d == (b - a) * w && 0.0 <= d && d <= b - a && (a < b ==> d > 0.0)
    ensures a * (1.0 - w) + b * w == a + d
    ensures b * (1.0 - w) + a * w == b - d
  {
    d := WeightedGap(b - a, w);
  }

  lemma TruncatedBetween(x: real, lo: int, hi: int)
    requires lo as real <= x <= hi as real
    ensures lo <= Truncated(x) <= hi
  {
  }

  /** The averaged load stays between the recorded and the reported one. */
  lemma WeightedBetween(load: int, report: int, w: real)
    requires 0.0 < w <= 1.0
    ensures load <= report ==> load <= Weighted(load, report, w) <= report
    ensures report <= load ==> report <= Weighted(load, report, w) <= load
  {
    var x := load as real * (1.0 - w) + report as real * w;
    if load <= report {
      var d := MeanIsBetween(load as real, report as real, w);
      TruncatedBetween(x, load, report);
    } else {
      var d := MeanIsBetween(report as real, load as real, w);
      TruncatedBetween(x, report, load);
    }
  }

  lemma WeightedInRange(load: int, report: int, w: real)
    requires 0.0 < w <= 1.0 && MIN_INT <= load <= MAX_INT && MIN_INT <= report <= MAX_INT
    ensures MIN_INT <= Weighted(load, report, w) <= MAX_INT
  {
    WeightedBetween(load, report, w);
  }

  /** A load above the report falls with every heartbeat. */
  lemma LoadFalls(load: int, report: int, w: real)
    requires 0.0 < w <= 1.0 && 0 <= report < load
    ensures report <= Weighted(load, report, w) < load
  {
    WeightedBetween(load, report, w);
    var d := MeanIsBetween(report as real, load as real, w);
  }

  /** The weighted distance of a load below the report. */
  function WeightedError(load: int, report: int, w: real): real {
    w * (report - load) as real
  }

  lemma WeightedErrorIs(load: int, report: int, w: real)
    ensures WeightedError(load, report, w) == w * (report as real - load as real)
  {
    assert (report - load) as real == report as real - load as real;
  }

  /** A load below the report stops exactly when the weighted gap is less than one. */
  lemma LoadStopsIff(load: int, report: int, w: real)
    requires 0.0 < w <= 1.0 && 0 <= load < report
    ensures load <= Weighted(load, report, w) <= report
    ensures Weighted(load, report, w) == load <==> WeightedError(load, report, w) < 1.0
  {
    WeightedBetween(load, report, w);
    var d := MeanIsBetween(load as real, report as real, w);
    ShiftedFloor(load, d);
    assert (report - load) as real == report as real - load as real;
    assert d == WeightedError(load, report, w);
  }

  lemma ShiftedFloor(load: nat, d: real)
    requires d >= 0.0
    ensures Truncated(load as real + d) == load <==> d < 1.0
  {
  }

  /** The load after `n` heartbeats with the same report. */
  function AfterReports(load: int, report: int, w: real, n: nat): int {
    if n == 0 then load else Weighted(AfterReports(load, report, w, n - 1), report, w)
  }

  function Distance(a: int, b: int): nat {
    if a <= b then b - a else a - b
  }

  lemma {:induction false} ReportsApproach(load: int, report: int, w: real, n: nat)
    requires 0.0 < w <= 1.0 && 0 <= load && 0 <= report
    ensures load <= report ==> load <= AfterReports(load, report, w, n) <= report
    ensures report <= load ==> report <= AfterReports(load, report, w, n) <= load
    ensures AfterReports(load, report, w, n + 1) == AfterReports(load, report, w, n) ||
            Distance(AfterReports(load, report, w, n), report) + n <= Distance(load, report)
  {
    if n > 0 {
      ReportsApproach(load, report, w, n - 1);
      WeightedBetween(AfterReports(load, report, w, n - 1), report, w);
    }
    WeightedBetween(AfterReports(load, report, w, n), report, w);
  }

  /**
   Repeated reports of the same value settle within as many heartbeats as the loads are
   apart: from above at the report itself, from below less than 1/w under it.
   */
  lemma ReportsSettle(load: int, report: int, w: real, n: nat)
    requires 0.0 < w <= 1.0 && 0 <= load && 0 <= report && n >= report - load && n >= load - report
    ensures AfterReports(load, report, w, n + 1) == AfterReports(load, report, w, n)
    ensures report <= load ==> AfterReports(load, report, w, n) == report
    ensures load < report ==> WeightedError(AfterReports(load, report, w, n), report, w) < 1.0
  {
    ReportsApproach(load, report, w, n);
    var settled := AfterReports(load, report, w, n);
    assert AfterReports(load, report, w, n + 1) == Weighted(settled, report, w);
    WeightedBetween(settled, report, w);
    if settled > report {
      LoadFalls(settled, report, w);
    } else if settled < report {
      LoadStopsIff(settled, report, w);
    }
  }

  /** With the shipped weight of one half the final error is at most one. */
  lemma ShippedWeightError(load: int, report: int, n: nat)
    requires 0 <= load && 0 <= report && n >= report - load && n >= load - report
    ensures report - 1 <= AfterReports(load, report, 0.5, n)
    ensures load >= report ==> AfterReports(load, report, 0.5, n) == report
  {
    ReportsSettle(load, report, 0.5, n);
  }

  // ----- Runs of picks -----

  /** One pick, away from the end of the integer range. */
  ghost predicate PickStep(m: Loads, after: Loads, s: EdgeServer) {
    LeastLoaded(m, s) && after == m[s := m[s] + 1]
  }

  ghost predicate IsPickRun(run: seq<Loads>, picks: seq<EdgeServer>) {
    && |run| == |picks| + 1
    && forall i {:trigger picks[i]} :: 0 <= i < |picks| ==> PickStep(run[i], run[i + 1], picks[i])
  }

  /** No two loads are more than `b` apart. */
  ghost predicate SpreadAtMost(m: Loads, b: int) {
    forall s, t :: s in m && t in m ==> m[s] - m[t] <= b
  }

  ghost function Total(m: Loads): int
    decreases |m|
  {
    if m == map[] then 0 else
    var s :| s in m;
    assert |m - {s}| < |m| by { SmallerMap(m, s); }
    m[s] + Total(m - {s})
  }

  lemma SmallerMap(m: Loads, s: EdgeServer)
    requires s in m
    ensures |m - {s}| == |m| - 1
  {
    assert (m - {s}).Keys == m.Keys - {s};
  }

  /** The total does not depend on the order of summation. */
  lemma {:induction false} TotalWithout(m: Loads, s: EdgeServer)
    requires s in m
    ensures Total(m) == m[s] + Total(m - {s})
    decreases |m|
  {
    var t :| t in m && Total(m) == m[t] + Total(m - {t});
    if t != s {
      SmallerMap(m, t);
      SmallerMap(m, s);
      TotalWithout(m - {t}, s);
      TotalWithout(m - {s}, t);
      assert m - {t} - {s} == m - {s} - {t};
    }
  }

  lemma OneMoreTimes(n: nat, k: int)
    ensures (n + 1) * k == n * k + k
  {
  }

  lemma {:induction false} TotalBounds(m: Loads, lo: int, hi: int)
    requires forall s :: s in m ==> lo <= m[s] <= hi
    ensures |m| * lo <= Total(m) <= |m| * hi
    decreases |m|
  {
    if m != map[] {
      var s :| s in m;
      SmallerMap(m, s);
      TotalWithout(m, s);
      TotalBounds(m - {s}, lo, hi);
      OneMoreTimes(|m - {s}|, lo);
      OneMoreTimes(|m - {s}|, hi);
    }
  }

  lemma PickAddsOne(m: Loads, after: Loads, s: EdgeServer)
    requires PickStep(m, after, s)
    ensures Total(after) == Total(m) + 1 && after.Keys == m.Keys
  {
    TotalWithout(m, s);
    TotalWithout(after, s);
    assert after - {s} == m - {s};
  }

  /** The total grows by one per pick, and the spread never exceeds the larger of its first value and 1. */
  lemma {:induction false} PicksStayBalanced(run: seq<Loads>, picks: seq<EdgeServer>, b: int)
    requires IsPickRun(run, picks)
    requires forall s, t :: s in run[0] && t in run[0] ==> run[0][s] - run[0][t] <= b
    ensures forall s, t :: s in run[|picks|] && t in run[|picks|] ==>
              run[|picks|][s] - run[|picks|][t] <= if b >= 1 then b else 1
    ensures Total(run[|picks|]) == Total(run[0]) + |picks|
    ensures run[|picks|].Keys == run[0].Keys
    decreases |picks|
  {
    if picks != [] {
      var n := |picks| - 1;
      assert PickStep(run[n], run[n + 1], picks[n]);
      PrefixIsPickRun(run, picks);
      PicksStayBalanced(run[..n + 1], picks[..n], b);
      PickAddsOne(run[n], run[n + 1], picks[n]);
    }
  }

  lemma PrefixIsPickRun(run: seq<Loads>, picks: seq<EdgeServer>)
    requires IsPickRun(run, picks) && picks != []
    ensures IsPickRun(run[..|picks|], picks[..|picks| - 1])
  {
    forall i {:trigger picks[..|picks| - 1][i]} | 0 <= i < |picks| - 1
      ensures PickStep(run[..|picks|][i], run[..|picks|][i + 1], picks[..|picks| - 1][i])
    {
      assert picks[..|picks| - 1][i] == picks[i];
    }
  }

  /** Loads within one of each other are the floor or the ceiling of their mean. */
  lemma NearlyEqualLoads(m: Loads, s: EdgeServer, total: nat, n: nat)
    requires s in m && (forall s, t :: s in m && t in m ==> m[s] - m[t] <= 1) && total == Total(m) && n == |m|
    ensures n > 0 && total / n <= m[s] <= (total + n - 1) / n
  {
    var rest := m - {s};
    SmallerMap(m, s);
    TotalWithout(m, s);
    TotalBounds(rest, m[s] - 1, m[s] + 1);
    FloorAndCeiling(total, n, m[s]);
  }

  lemma FloorAndCeiling(total: int, n: int, load: int)
    requires n > 0 && total >= 0
    requires (n - 1) * (load - 1) + load <= total <= (n - 1) * (load + 1) + load
    ensures total / n <= load <= (total + n - 1) / n
  {
    assert (n - 1) * (load - 1) + load == n * load - n + 1;
    assert (n - 1) * (load + 1) + load == n * load + n - 1;
    AtMostQuotient(total + n - 1, n, load);
    AtLeastQuotient(total, n, load);
  }

  lemma AtMostQuotient(x: int, n: int, q: int)
    requires n > 0 && n * q <= x
    ensures q <= x / n
  {
    var d := x / n;
    assert x < n * d + n;
    assert n * (q - d) == n * q - n * d;
    if q > d {
      Times(n, q - d);
    }
  }

  lemma AtLeastQuotient(x: int, n: int, q: int)
    requires n > 0 && x <= n * q + n - 1
    ensures x / n <= q
  {
    var d := x / n;
    assert n * d <= x;
    assert n * (d - q) == n * d - n * q;
    if d > q {
      Times(n, d - q);
    }
  }

  lemma Times(n: int, k: int)
    requires n > 0 && k >= 1
    ensures n * k >= n
  {
  }

  /** From all zeros, k picks over n servers leave every load at the floor or the ceiling of k/n. */
  lemma PicksFromZero(run: seq<Loads>, picks: seq<EdgeServer>, s: EdgeServer)
    requires IsPickRun(run, picks) && s in run[0] && forall t :: t in run[0] ==> run[0][t] == 0
    ensures s in run[|picks|] && |run[|picks|]| == |run[0]|
    ensures |picks| / |run[0]| <= run[|picks|][s] <= (|picks| + |run[0]| - 1) / |run[0]|
  {
    PicksStayBalanced(run, picks, 1);
    TotalBounds(run[0], 0, 0);
    var m := run[|picks|];
    assert |m.Keys| == |run[0].Keys|;
    NearlyEqualLoads(m, s, |picks|, |run[0]|);
  }

  /**
   A run of picks on the balancer itself: each pick raises one load, and the loads stay as
   close together as they were, or come within one of each other.
   */
  method PickRepeatedly(balancer: BalancingServiceServer, n: nat, b: int) returns (picks: seq<EdgeServer>, ghost run: seq<Loads>)
    requires balancer.Valid() && balancer.edgeServerMap != map[]
    requires forall s :: s in balancer.edgeServerMap ==> balancer.edgeServerMap[s] + n <= MAX_INT
    requires forall s, t :: s in balancer.edgeServerMap && t in balancer.edgeServerMap ==>
               balancer.edgeServerMap[s] - balancer.edgeServerMap[t] <= b
    modifies balancer`edgeServerMap
    ensures balancer.Valid() && |picks| == n && balancer.edgeServerMap.Keys == old(balancer.edgeServerMap).Keys
    ensures forall s, t :: s in balancer.edgeServerMap && t in balancer.edgeServerMap ==>
              balancer.edgeServerMap[s] - balancer.edgeServerMap[t] <= if b >= 1 then b else 1
    ensures IsPickRun(run, picks) && run[0] == old(balancer.edgeServerMap) && run[n] == balancer.edgeServerMap
  {
    run, picks := [balancer.edgeServerMap], [];
    ghost var start := balancer.edgeServerMap;
    while |picks| < n
      invariant |picks| <= n && balancer.Valid() && balancer.edgeServerMap != map[]
      invariant IsPickRun(run, picks) && run[0] == start && run[|picks|] == balancer.edgeServerMap
      invariant forall s :: s in balancer.edgeServerMap ==> balancer.edgeServerMap[s] + (n - |picks|) <= MAX_INT
    {
      var picked := balancer.PickEdgeServer();
      OneMorePick(run, picks, balancer.edgeServerMap, picked.value);
      run, picks := run + [balancer.edgeServerMap], picks + [picked.value];
    }
    PicksStayBalanced(run, picks, b);
  }

  /** From all zeros, n picks on the balancer leave every load at the floor or the ceiling of their mean. */
  method PickFromZero(balancer: BalancingServiceServer, n: nat) returns (picks: seq<EdgeServer>, servers: nat)
    requires balancer.Valid() && balancer.edgeServerMap != map[] && n <= MAX_INT
    requires forall s :: s in balancer.edgeServerMap ==> balancer.edgeServerMap[s] == 0
    modifies balancer`edgeServerMap
    ensures balancer.Valid() && servers == |balancer.edgeServerMap| == |old(balancer.edgeServerMap)| > 0
    ensures forall s :: s in balancer.edgeServerMap ==>
              n / servers <= balancer.edgeServerMap[s] <= (n + servers - 1) / servers
  {
    ghost var run, before := [], balancer.edgeServerMap;
    picks, run := PickRepeatedly(balancer, n, 0);
    assert before.Keys == balancer.edgeServerMap.Keys && |before| == |before.Keys|;
    servers := |balancer.edgeServerMap|;
    EvenlyPicked(run, picks, balancer.edgeServerMap, n, servers);
  }

  lemma OneMorePick(run: seq<Loads>, picks: seq<EdgeServer>, after: Loads, s: EdgeServer)
    requires IsPickRun(run, picks) && PickStep(run[|picks|], after, s)
    ensures IsPickRun(run + [after], picks + [s])
  {
    forall i {:trigger (picks + [s])[i]} | 0 <= i <= |picks|
      ensures PickStep((run + [after])[i], (run + [after])[i + 1], (picks + [s])[i])
    {
      assert i < |picks| ==> (picks + [s])[i] == picks[i];
    }
  }

  lemma EvenlyPicked(run: seq<Loads>, picks: seq<EdgeServer>, last: Loads, n: nat, size: nat)
    requires IsPickRun(run, picks) && last == run[|picks|] && n == |picks| && size == |last|
    ensures (forall s :: s in run[0] ==> run[0][s] == 0) ==>
              forall s :: s in last ==> size > 0 && n / size <= last[s] <= (n + size - 1) / size
  {
    if forall s :: s in run[0] ==> run[0][s] == 0 {
      PicksStayBalanced(run, picks, 0);
      forall s | s in last
        ensures size > 0 && n / size <= last[s] <= (n + size - 1) / size
      {
        PicksFromZero(run, picks, s);
      }
    }
  }

  /** A run of heartbeats with the same report on the balancer itself settles at the report, or just under it. */
  method ReportRepeatedly(balancer: BalancingServiceServer, s: EdgeServer, report: nat, weight: real, instants: seq<Time>)
    requires balancer.Valid() && 0.0 < weight <= 1.0 && report <= MAX_INT
    requires s in balancer.edgeServerMap && balancer.edgeServerMap[s] >= 0
    modifies balancer`edgeServerMap, balancer`heartbeats
    ensures balancer.Valid() && s in balancer.edgeServerMap
    ensures report <= old(balancer.edgeServerMap)[s] ==> report <= balancer.edgeServerMap[s] <= old(balancer.edgeServerMap)[s]
    ensures old(balancer.edgeServerMap)[s] <= report ==> old(balancer.edgeServerMap)[s] <= balancer.edgeServerMap[s] <= report
    ensures |instants| >= old(balancer.edgeServerMap)[s] - report >= 0 ==> balancer.edgeServerMap[s] == report
    ensures |instants| >= report - old(balancer.edgeServerMap)[s] > 0 ==>
              WeightedError(balancer.edgeServerMap[s], report, weight) < 1.0
  {
    ghost var load := balancer.edgeServerMap[s];
    for i := 0 to |instants|
      invariant balancer.Valid() && s in balancer.edgeServerMap
      invariant balancer.edgeServerMap[s] == AfterReports(load, report, weight, i)
    {
      balancer.Heartbeat(s, report, weight, instants[i]);
    }
    ReportsApproach(load, report, weight, |instants|);
    if |instants| >= load - report && |instants| >= report - load {
      ReportsSettle(load, report, weight, |instants|);
    }
  }
}
