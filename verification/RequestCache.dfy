/**
 The duplicate filter of an edge peer: every lookup or delete request seen is stamped, and
 a lookup whose request was stamped within the time to live is ignored.
 */
module RequestCache {
  import opened EdgePeers

  datatype FileRequest = FileRequest(fileName: string, requestId: string, forwarderPeer: EdgePeer)

  type Stamps = map<FileRequest, Time>

  /** Requests are duplicates whoever forwarded them. */
  predicate SameRequest(a: FileRequest, b: FileRequest) {
    a.requestId == b.requestId && a.fileName == b.fileName
  }

  predicate Expired(stamp: Time, now: Time, ttl: Time) {
    now > stamp + ttl
  }

  /** A duplicate of `r` is stamped and not yet expired. */
  predicate Served(m: Stamps, r: FileRequest, now: Time, ttl: Time) {
    exists k :: k in m && SameRequest(k, r) && !Expired(m[k], now, ttl)
  }

  /** The entries after a check: `r` is stamped FIRST, and then the keys that had expired are deleted. */
  function AfterCheck(m: Stamps, r: FileRequest, now: Time, ttl: Time): Stamps {
    m[r := now] - (set k | k in m && Expired(m[k], now, ttl))
  }

  class RequestCache {
    var requestMap: Stamps

    constructor ()
      ensures requestMap == map[]
    {
      requestMap := map[];
    }

    method AddRequestInCache(request: FileRequest, now: Time)
      modifies this
      ensures requestMap == old(requestMap)[request := now]
      ensures forall ttl :: requestMap == ApplyOp(old(requestMap), Add(request, now), ttl)
    {
      requestMap := requestMap[request := now];
    }

    method IsRequestAlreadyServed(fileRequest: FileRequest, now: Time, ttl: Time) returns (success: bool)
      modifies this
      ensures success <==> exists k :: k in old(requestMap) && k.requestId == fileRequest.requestId &&
                                       k.fileName == fileRequest.fileName && now <= old(requestMap)[k] + ttl
      ensures forall k :: k in requestMap <==>
                (k in old(requestMap) && now <= old(requestMap)[k] + ttl) || (k == fileRequest && k !in old(requestMap))
      ensures forall k :: k in requestMap ==> requestMap[k] == if k == fileRequest then now else old(requestMap)[k]
      ensures success <==> Served(old(requestMap), fileRequest, now, ttl)
      ensures requestMap == AfterCheck(old(requestMap), fileRequest, now, ttl)
      ensures requestMap == ApplyOp(old(requestMap), Check(fileRequest, now), ttl)
    {
      success := false;
      var requestToDelete: seq<FileRequest> := [];
      var todo := requestMap.Keys;
      while todo != {}
        invariant todo <= requestMap.Keys && requestMap == old(requestMap)
        invariant success <==> exists k :: k in requestMap.Keys - todo && SameRequest(k, fileRequest) &&
                                           !Expired(requestMap[k], now, ttl)
        invariant forall k :: k in requestToDelete <==> k in requestMap.Keys - todo && Expired(requestMap[k], now, ttl)
        decreases todo
      {
        var request :| request in todo;
        todo := todo - {request};
        if now > requestMap[request] + ttl {
          requestToDelete := requestToDelete + [request];
        } else if request.requestId == fileRequest.requestId && request.fileName == fileRequest.fileName {
          success := true;
        }
      }
      requestMap := requestMap[fileRequest := now];
      for i := 0 to |requestToDelete|
        invariant requestMap == old(requestMap)[fileRequest := now] - (set k | k in requestToDelete[..i])
      {
        requestMap := requestMap - {requestToDelete[i]};
      }
      assert requestToDelete[..|requestToDelete|] == requestToDelete;
      assert (set k | k in requestToDelete) == set k | k in old(requestMap) && Expired(old(requestMap)[k], now, ttl);
    }
  }

  // ----- Runs of the two operations, by any handlers of this peer -----

  datatype CacheOp = Add(request: FileRequest, at: Time) | Check(request: FileRequest, at: Time)

  function ApplyOp(m: Stamps, op: CacheOp, ttl: Time): Stamps {
    match op
    case Add(r, at) => m[r := at]
    case Check(r, at) => AfterCheck(m, r, at, ttl)
  }

  function RunOps(m: Stamps, ops: seq<CacheOp>, ttl: Time): Stamps
    decreases |ops|
  {
    if ops == [] then m else ApplyOp(RunOps(m, ops[..|ops| - 1], ttl), ops[|ops| - 1], ttl)
  }

  lemma RunOpsOneMore(m: Stamps, ops: seq<CacheOp>, op: CacheOp, ttl: Time)
    ensures RunOps(m, [], ttl) == m && RunOps(m, ops + [op], ttl) == ApplyOp(RunOps(m, ops, ttl), op, ttl)
  {
    assert (ops + [op])[..|ops|] == ops;
  }

  ghost predicate AllWithin(ops: seq<CacheOp>, from: Time, to: Time) {
    forall i :: 0 <= i < |ops| ==> from <= ops[i].at <= to
  }

  /** No operation removes or ages an entry stamped at `from` or later before it has expired. */
  lemma {:induction false} StampPersists(m: Stamps, ops: seq<CacheOp>, r: FileRequest, from: Time, ttl: Time)
    requires r in m && from <= m[r] && AllWithin(ops, from, from + ttl)
    ensures r in RunOps(m, ops, ttl) && from <= RunOps(m, ops, ttl)[r]
    decreases |ops|
  {
    if ops != [] {
      StampPersists(m, ops[..|ops| - 1], r, from, ttl);
    }
  }

  /** Once a request is added, every duplicate checked within the time to live is recognised. */
  lemma AddBlocksDuplicates(m: Stamps, r: FileRequest, from: Time, ops: seq<CacheOp>, duplicate: FileRequest, now: Time, ttl: Time)
    requires forall i :: 0 <= i < |ops| ==> from <= ops[i].at <= from + ttl
    requires now <= from + ttl && r.requestId == duplicate.requestId && r.fileName == duplicate.fileName
    ensures Served(RunOps(m[r := from], ops, ttl), duplicate, now, ttl)
  {
    StampPersists(m[r := from], ops, r, from, ttl);
  }

  /**
   A check that finds nothing leaves its own stamp behind exactly when the very same key,
   forwarder included, was not lying expired in the map: then the key is stamped and
   deleted again.
   */
  lemma CheckRecordsIff(m: Stamps, r: FileRequest, now: Time, ttl: Time, later: Time)
    requires ttl >= 0 && !Served(m, r, now, ttl) && now <= later <= now + ttl
    ensures Served(AfterCheck(m, r, now, ttl), r, later, ttl) <==> r !in m
  {
    var after := AfterCheck(m, r, now, ttl);
    assert forall k :: k in m && SameRequest(k, r) ==> Expired(m[k], now, ttl);
    if r !in m {
      assert after[r] == now;
    }
  }

  /** In that case the check alone already keeps every duplicate out for the time to live. */
  lemma CheckBlocksDuplicates(m: Stamps, r: FileRequest, from: Time, ops: seq<CacheOp>, duplicate: FileRequest, now: Time, ttl: Time)
    requires ttl >= 0 && r !in m
    requires forall i :: 0 <= i < |ops| ==> from <= ops[i].at <= from + ttl
    requires now <= from + ttl && r.requestId == duplicate.requestId && r.fileName == duplicate.fileName
    ensures Served(RunOps(AfterCheck(m, r, from, ttl), ops, ttl), duplicate, now, ttl)
  {
    StampPersists(AfterCheck(m, r, from, ttl), ops, r, from, ttl);
  }

  /** The unlucky case: two handlers both pass the check at the same instant. */
  lemma TwoChecksCanPass(r: FileRequest, ttl: Time, now: Time)
    requires ttl >= 0
    ensures exists m: Stamps :: !Served(m, r, now, ttl) && !Served(AfterCheck(m, r, now, ttl), r, now, ttl)
  {
    var m := map[r := now - ttl - 1];
    CheckRecordsIff(m, r, now, ttl, now);
  }

  // ----- Whole lookup handlers, each one atomic -----

  /** What a lookup handler did with its request. */
  datatype Handling = Ignored | Answered | Forwarded | Ended

  /** The outcome of the receiving step; the TTL is decremented before it is tested. */
  function Outcome(m: Stamps, r: FileRequest, ttlLeft: int, cached: bool, now: Time, ttl: Time): Handling {
    if Served(m, r, now, ttl) then Ignored
    else if cached then Answered
    else if ttlLeft - 1 > 0 then Forwarded
    else Ended
  }

  /** A request answered or forwarded is stamped again after the check; an ended one is not. */
  function AfterHandling(m: Stamps, r: FileRequest, ttlLeft: int, cached: bool, now: Time, ttl: Time): Stamps {
    var checked := AfterCheck(m, r, now, ttl);
    if Outcome(m, r, ttlLeft, cached, now, ttl) in {Answered, Forwarded} then checked[r := now] else checked
  }

  /** A lookup arriving at this peer, or any other request it stamps: its own lookups and deletes. */
  datatype PeerEvent =
    | Lookup(request: FileRequest, ttlLeft: int, cached: bool, at: Time)
    | Stamp(request: FileRequest, at: Time)

  function ApplyEvent(m: Stamps, e: PeerEvent, ttl: Time): Stamps {
    match e
    case Lookup(r, left, cached, at) => AfterHandling(m, r, left, cached, at, ttl)
    case Stamp(r, at) => m[r := at]
  }

  function RunEvents(m: Stamps, events: seq<PeerEvent>, ttl: Time): Stamps
    decreases |events|
  {
    if events == [] then m else ApplyEvent(RunEvents(m, events[..|events| - 1], ttl), events[|events| - 1], ttl)
  }

  lemma RunEventsOneMore(m: Stamps, events: seq<PeerEvent>, e: PeerEvent, ttl: Time)
    ensures RunEvents(m, [], ttl) == m && RunEvents(m, events + [e], ttl) == ApplyEvent(RunEvents(m, events, ttl), e, ttl)
  {
    assert (events + [e])[..|events|] == events;
  }

  /** Event `i` of the run is a lookup that was answered or forwarded. */
  ghost predicate Handles(m: Stamps, events: seq<PeerEvent>, i: nat, ttl: Time)
    requires i < |events|
  {
    var e := events[i];
    e.Lookup? && Outcome(RunEvents(m, events[..i], ttl), e.request, e.ttlLeft, e.cached, e.at, ttl) in {Answered, Forwarded}
  }

  ghost predicate InOrder(events: seq<PeerEvent>) {
    forall i, j :: 0 <= i < j < |events| ==> events[i].at <= events[j].at
  }

  lemma {:induction false} HandledStampPersists(m: Stamps, events: seq<PeerEvent>, i: nat, j: nat, ttl: Time)
    requires ttl >= 0 && i < j <= |events| && InOrder(events) && Handles(m, events, i, ttl)
    requires forall k :: i <= k < j ==> events[k].at <= events[i].at + ttl
    ensures events[i].request in RunEvents(m, events[..j], ttl)
    ensures events[i].at <= RunEvents(m, events[..j], ttl)[events[i].request]
    decreases j
  {
    assert events[..j][..j - 1] == events[..j - 1];
    if i < j - 1 {
      HandledStampPersists(m, events, i, j - 1, ttl);
    }
  }

  /**
   Two lookups of the same request that one peer answers or forwards are more than the
   time to live apart, whoever forwarded them.
   */
  lemma HandlingsAreApart(m: Stamps, events: seq<PeerEvent>, i: nat, j: nat, ttl: Time)
    requires ttl >= 0 && i < j < |events|
    requires forall k, l :: 0 <= k < l < |events| ==> events[k].at <= events[l].at
    requires forall n :: n == i || n == j ==>
               events[n].Lookup? &&
               Outcome(RunEvents(m, events[..n], ttl), events[n].request, events[n].ttlLeft, events[n].cached, events[n].at, ttl)
                 in {Answered, Forwarded}
    requires events[i].request.requestId == events[j].request.requestId && events[i].request.fileName == events[j].request.fileName
    ensures events[j].at > events[i].at + ttl
  {
    if events[j].at <= events[i].at + ttl {
      HandledStampPersists(m, events, i, j, ttl);
      assert false;
    }
  }
}
