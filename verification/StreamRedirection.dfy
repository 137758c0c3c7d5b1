/**
 The two-way redirection of a received stream, to a main destination and to the cache,
 and the cache writer that consumes the second copy.  The `select` of the redirecting loop
 and the interleaving of the two sides are arbitrary.
 */
module StreamRedirection {
  import opened EdgePeers
  import opened Messages

  /** What one turn of the redirecting loop's `select` yields. */
  datatype Event =
    | MainReturned(err: Option<Error>)
    | CacheReturned(err: Option<Error>)
    | Received(chunk: Bytes)
    | EndOfStream
    | StreamFailed(error: Error)

  /** How the loop ended, if it has. */
  datatype Ending = Running | MainError(err: Error) | StreamError(err: Error) | Complete

  predicate Ends(e: Event) {
    e.EndOfStream? || e.StreamFailed? || (e.MainReturned? && e.err.Some?)
  }

  /** The redirecting side: everything it sent, and the chunks it received. */
  datatype Producer = Producer(
    main: seq<Message>,
    cache: seq<Message>,
    cacheable: bool,
    received: seq<Bytes>,
    ending: Ending)

  function Start(cacheable: bool): Producer {
    Producer([], [], cacheable, [], Running)
  }

  /** One turn of the loop. */
  function Turn(p: Producer, e: Event): Producer
    requires p.ending == Running
  {
    match e
    case MainReturned(Some(err)) => p.(cache := p.cache + [Failure(err)], ending := MainError(err))
    case MainReturned(None) => p
    case CacheReturned(Some(_)) => p.(cacheable := false)
    case CacheReturned(None) => p
    case EndOfStream => p.(ending := Complete)
    case StreamFailed(err) =>
      p.(main := p.main + [Failure(err)],
         cache := if p.cacheable then p.cache + [Failure(err)] else p.cache,
         ending := StreamError(err))
    case Received(chunk) =>
      p.(main := p.main + [Chunk(chunk)],
         cache := if p.cacheable then p.cache + [Chunk(chunk)] else p.cache,
         received := p.received + [chunk])
  }

  /** A run of the loop: turns until one ends it. */
  function Turns(p: Producer, events: seq<Event>): Producer {
    if events == [] then p
    else
      var q := Turns(p, events[..|events| - 1]);
      if q.ending == Running then Turn(q, events[|events| - 1]) else q
  }

  /** What the two channels hold, whatever the select chose. */
  ghost predicate ChannelsOk(cacheable: bool, p: Producer) {
    && (p.cacheable ==> cacheable)
    && p.main == Chunks(p.received) + (if p.ending.StreamError? then [Failure(p.ending.err)] else [])
    && (p.cacheable ==>
          p.cache == Chunks(p.received) +
                     (match p.ending case StreamError(e) => [Failure(e)] case MainError(e) => [Failure(e)] case _ => []))
  }

  lemma TurnKeepsChannels(cacheable: bool, p: Producer, e: Event)
    requires ChannelsOk(cacheable, p) && p.ending == Running
    ensures ChannelsOk(cacheable, Turn(p, e))
  {
    if e.Received? {
      assert Chunks(p.received + [e.chunk]) == Chunks(p.received) + [Chunk(e.chunk)];
    }
  }

  /**
   For every sequence of select outcomes the main channel gets exactly the received chunks
   in order, then at most the one error of the stream; and so does the cache as long as it
   has not been given up, except that an error of the main side also ends it.
   */
  lemma {:induction false} RunsKeepChannels(cacheable: bool, events: seq<Event>)
    ensures ChannelsOk(cacheable, Turns(Start(cacheable), events))
  {
    if events != [] {
      var before := events[..|events| - 1];
      RunsKeepChannels(cacheable, before);
      var q := Turns(Start(cacheable), before);
      if q.ending == Running {
        TurnKeepsChannels(cacheable, q, events[|events| - 1]);
      }
    } else {
      assert Chunks([]) == [];
    }
  }

  // ----- The channels, told by the events alone -----

  /** The chunks that arrived, in order. */
  function ReceivedChunks(events: seq<Event>): seq<Bytes> {
    if events == [] then []
    else
      var n := |events| - 1;
      ReceivedChunks(events[..n]) + match events[n] case Received(chunk) => [chunk] case _ => []
  }

  /** How many events come before the cache is given up. */
  function BeforeGivingUp(events: seq<Event>): (n: nat)
    ensures n <= |events|
    ensures forall i :: 0 <= i < n ==> !(events[i].CacheReturned? && events[i].err.Some?)
    ensures n < |events| ==> events[n].CacheReturned? && events[n].err.Some?
  {
    if events == [] then 0
    else
      var last := |events| - 1;
      var n := BeforeGivingUp(events[..last]);
      if n < last || (events[last].CacheReturned? && events[last].err.Some?) then n else |events|
  }

  predicate GivesUp(e: Event) {
    e.CacheReturned? && e.err.Some?
  }

  predicate GivenUp(events: seq<Event>) {
    BeforeGivingUp(events) < |events|
  }

  /** The chunks that arrived before the cache was given up. */
  function KeptChunks(events: seq<Event>): seq<Bytes> {
    ReceivedChunks(events[..BeforeGivingUp(events)])
  }

  lemma KeptNext(events: seq<Event>, e: Event)
    ensures GivenUp(events + [e]) <==> GivenUp(events) || GivesUp(e)
    ensures KeptChunks(events + [e]) == if e.Received? && !GivenUp(events) then KeptChunks(events) + [e.chunk] else KeptChunks(events)
    ensures ReceivedChunks(events + [e]) == if e.Received? then ReceivedChunks(events) + [e.chunk] else ReceivedChunks(events)
    ensures !GivenUp(events) ==> KeptChunks(events) == ReceivedChunks(events)
  {
    var more, n := events + [e], BeforeGivingUp(events);
    assert more[..|events|] == events && events[..|events|] == events;
    assert BeforeGivingUp(more) == if n < |events| || GivesUp(e) then n else |more|;
    assert more[..n] == events[..n];
    assert more[..|more|] == more;
  }

  /** What the main channel gets after the chunks. */
  function MainTail(last: Event): seq<Message> {
    match last case StreamFailed(e) => [Failure(e)] case _ => []
  }

  /** What the cache channel gets after the chunks; only a failed main side is told to a cache that was given up. */
  function CacheTail(last: Event, givenUp: bool): seq<Message> {
    match last
    case MainReturned(Some(e)) => [Failure(e)]
    case StreamFailed(e) => if givenUp then [] else [Failure(e)]
    case _ => []
  }

  /** How the loop has ended, told by its last event. */
  function EndingOf(last: Event): Ending {
    match last
    case MainReturned(Some(e)) => MainError(e)
    case StreamFailed(e) => StreamError(e)
    case EndOfStream => Complete
    case _ => Running
  }

  /** The loop still runs, has received these chunks, and kept these for the cache. */
  ghost predicate Told(p: Producer, cacheable: bool, givenUp: bool, received: seq<Bytes>, kept: seq<Bytes>) {
    && p.ending == Running && p.received == received && p.cacheable == (cacheable && !givenUp)
    && p.main == Chunks(received) && p.cache == Chunks(if cacheable then kept else [])
  }

  /** A run of turns that still runs, without the turns. */
  ghost predicate RunningToldBy(cacheable: bool, events: seq<Event>, p: Producer) {
    Told(p, cacheable, GivenUp(events), ReceivedChunks(events), KeptChunks(events))
  }

  lemma ChunksOneMore(bodies: seq<Bytes>, body: Bytes)
    ensures Chunks(bodies + [body]) == Chunks(bodies) + [Chunk(body)]
  {
  }

  /** One more turn that does not end the loop. */
  lemma TurnIsTold(p: Producer, e: Event, cacheable: bool, givenUp: bool, received: seq<Bytes>, kept: seq<Bytes>,
                   givenUpAfter: bool, receivedAfter: seq<Bytes>, keptAfter: seq<Bytes>)
    requires Told(p, cacheable, givenUp, received, kept) && !Ends(e)
    requires givenUpAfter == (givenUp || GivesUp(e))
    requires receivedAfter == if e.Received? then received + [e.chunk] else received
    requires keptAfter == if e.Received? && !givenUp then kept + [e.chunk] else kept
    ensures Told(Turn(p, e), cacheable, givenUpAfter, receivedAfter, keptAfter)
  {
    if e.Received? {
      ChunksOneMore(received, e.chunk);
      ChunksOneMore(kept, e.chunk);
    }
  }

  lemma TurnIsToldBy(cacheable: bool, events: seq<Event>, e: Event, p: Producer)
    requires RunningToldBy(cacheable, events, p) && !Ends(e)
    ensures RunningToldBy(cacheable, events + [e], Turn(p, e))
  {
    KeptNext(events, e);
    var more := events + [e];
    TurnIsTold(p, e, cacheable, GivenUp(events), ReceivedChunks(events), KeptChunks(events),
               GivenUp(more), ReceivedChunks(more), KeptChunks(more));
  }

  lemma {:induction false} TurnsAreToldBy(cacheable: bool, events: seq<Event>)
    requires forall i :: 0 <= i < |events| ==> !Ends(events[i])
    ensures RunningToldBy(cacheable, events, Turns(Start(cacheable), events))
  {
    if events == [] {
      assert Chunks([]) == [];
    } else {
      var n := |events| - 1;
      var front := events[..n];
      assert forall i :: 0 <= i < n ==> front[i] == events[i];
      TurnsAreToldBy(cacheable, front);
      assert front + [events[n]] == events;
      TurnIsToldBy(cacheable, front, events[n], Turns(Start(cacheable), front));
    }
  }

  lemma TurnsOneMore(p: Producer, events: seq<Event>, e: Event)
    requires Turns(p, events).ending == Running
    ensures Turns(p, events + [e]) == Turn(Turns(p, events), e)
  {
    assert (events + [e])[..|events|] == events;
  }

  /** The channels of a loop that has ended with `last`. */
  lemma ChannelsAreToldBy(cacheable: bool, front: seq<Event>, last: Event, events: seq<Event>, p: Producer)
    requires events == front + [last] && Ends(last) && forall i :: 0 <= i < |front| ==> !Ends(front[i])
    requires p == Turns(Start(cacheable), events)
    ensures p.ending == EndingOf(last) && p.ending != Running && p.received == ReceivedChunks(events)
    ensures p.main == Chunks(ReceivedChunks(events)) + MainTail(last)
    ensures p.cacheable == (cacheable && !GivenUp(events))
    ensures p.cache == Chunks(if cacheable then KeptChunks(events) else []) + CacheTail(last, !p.cacheable)
  {
    var q := Turns(Start(cacheable), front);
    TurnsAreToldBy(cacheable, front);
    TurnsOneMore(Start(cacheable), front, last);
    KeptNext(front, last);
    LastTurn(cacheable, front, last, q);
  }

  /** The turn that ends the loop. */
  lemma LastTurn(cacheable: bool, events: seq<Event>, e: Event, p: Producer)
    requires RunningToldBy(cacheable, events, p) && Ends(e)
    ensures var q := Turn(p, e);
            && q.ending == EndingOf(e) && q.ending != Running && q.received == p.received && q.cacheable == p.cacheable
            && q.main == p.main + MainTail(e) && q.cache == p.cache + CacheTail(e, !p.cacheable)
    ensures !GivesUp(e) && !e.Received?
  {
    match e
    case EndOfStream =>
      assert p.main + [] == p.main && p.cache + [] == p.cache;
    case MainReturned(Some(err)) =>
      assert p.main + [] == p.main;
    case StreamFailed(err) =>
      assert p.cache + [] == p.cache;
    case _ =>
  }

  lemma KeptIsReceived(events: seq<Event>)
    requires forall i :: 0 <= i < |events| && events[i].CacheReturned? ==> events[i].err == None
    ensures !GivenUp(events) && KeptChunks(events) == ReceivedChunks(events)
  {
    assert events[..|events|] == events;
  }

  class RedirectionChannels {
    var mainMessages: seq<Message>
    var cacheMessages: seq<Message>
    var mainCloses: nat
    var cacheCloses: nat

    constructor ()
      ensures mainMessages == [] && cacheMessages == [] && mainCloses == 0 && cacheCloses == 0
    {
      mainMessages, cacheMessages, mainCloses, cacheCloses := [], [], 0, 0;
    }

    /**
     The redirecting loop.  `events` are the outcomes of the select, at least up to the one
     that ends the loop, and `lastReturn` is what the main destination returns after the
     close, which is only awaited if it had not failed before.
     */
    method RcvAndRedirectChunks(events: seq<Event>, isFileCacheable: bool, lastReturn: Option<Error>)
      returns (err: Option<Error>, ghost used: nat)
      requires exists i :: 0 <= i < |events| && Ends(events[i])
      requires mainMessages == [] && cacheMessages == [] && mainCloses == 0 && cacheCloses == 0
      modifies this
      ensures 0 < used <= |events|
      ensures events[used - 1].EndOfStream? || events[used - 1].StreamFailed? || (events[used - 1].MainReturned? && events[used - 1].err.Some?)
      ensures forall i :: 0 <= i < used - 1 ==>
                !events[i].EndOfStream? && !events[i].StreamFailed? && !(events[i].MainReturned? && events[i].err.Some?)
      ensures Ends(events[used - 1]) && forall i :: 0 <= i < used - 1 ==> !Ends(events[i])
      ensures mainMessages == Chunks(ReceivedChunks(events[..used])) +
                              match events[used - 1] case StreamFailed(e) => [Failure(e)] case _ => []
      ensures isFileCacheable && (forall i :: 0 <= i < used && events[i].CacheReturned? ==> events[i].err == None) ==>
                cacheMessages == Chunks(ReceivedChunks(events[..used])) +
                                 match events[used - 1]
                                 case StreamFailed(e) => [Failure(e)]
                                 case MainReturned(Some(e)) => [Failure(e)]
                                 case _ => []
      ensures isFileCacheable ==>
                cacheMessages == Chunks(KeptChunks(events[..used])) + CacheTail(events[used - 1], GivenUp(events[..used]))
      ensures !isFileCacheable ==>
                cacheMessages == match events[used - 1] case MainReturned(Some(e)) => [Failure(e)] case _ => []
      ensures err == match events[used - 1]
                     case StreamFailed(e) => Some(e)
                     case MainReturned(Some(e)) => Some(e)
                     case _ => lastReturn
      ensures mainMessages == Turns(Start(isFileCacheable), events[..used]).main
      ensures cacheMessages == Turns(Start(isFileCacheable), events[..used]).cache
      ensures mainCloses == 1 && cacheCloses == 1
      ensures err == match Turns(Start(isFileCacheable), events[..used]).ending
                     case StreamError(e) => Some(e)
                     case MainError(e) => Some(e)
                     case Complete => lastReturn
                     case Running => None
    {
      var mainChannelError, grpcError: Option<Error>;
      mainChannelError, grpcError, used := RedirectLoop(events, isFileCacheable);
      ghost var told := events[..used];
      ghost var front, last := events[..used - 1], events[used - 1];
      assert told == front + [last];
      ChannelsAreToldBy(isFileCacheable, front, last, told, Turns(Start(isFileCacheable), told));
      if forall i :: 0 <= i < used && events[i].CacheReturned? ==> events[i].err == None {
        KeptIsReceived(told);
      }
      assert Chunks([]) == [];
      mainCloses := mainCloses + 1;
      cacheCloses := cacheCloses + 1;
      if mainChannelError == None {
        mainChannelError := lastReturn;
      }
      err := if grpcError.Some? then grpcError else mainChannelError;
    }

    /** The loop, up to the event that ends it. */
    method RedirectLoop(events: seq<Event>, isFileCacheable: bool)
      returns (mainChannelError: Option<Error>, grpcError: Option<Error>, ghost used: nat)
      requires exists i :: 0 <= i < |events| && Ends(events[i])
      requires mainMessages == [] && cacheMessages == [] && mainCloses == 0 && cacheCloses == 0
      modifies this`mainMessages, this`cacheMessages
      ensures 0 < used <= |events| && Ends(events[used - 1]) && forall i :: 0 <= i < used - 1 ==> !Ends(events[i])
      ensures var p := Turns(Start(isFileCacheable), events[..used]);
              && mainMessages == p.main && cacheMessages == p.cache
              && mainChannelError == (if p.ending.MainError? then Some(p.ending.err) else None)
              && grpcError == if p.ending.StreamError? then Some(p.ending.err) else None
    {
      var endLoop, cacheable := false, isFileCacheable;
      mainChannelError, grpcError := None, None;
      ghost var p := Start(isFileCacheable);
      used := 0;
      var i := 0;
      while !endLoop
        invariant used == i <= |events|
        invariant p == Turns(Start(isFileCacheable), events[..i])
        invariant mainMessages == p.main && cacheMessages == p.cache
        invariant mainCloses == 0 && cacheCloses == 0
        invariant endLoop <==> p.ending != Running
        invariant !endLoop ==> cacheable == p.cacheable && forall k :: 0 <= k < i ==> !Ends(events[k])
        invariant endLoop ==> i > 0 && Ends(events[i - 1]) && forall k :: 0 <= k < i - 1 ==> !Ends(events[k])
        invariant mainChannelError == if p.ending.MainError? then Some(p.ending.err) else None
        invariant grpcError == if p.ending.StreamError? then Some(p.ending.err) else None
        decreases |events| - i, !endLoop
      {
        var event := events[i];
        assert events[..i + 1][..i] == events[..i];
        p := Turn(p, event);
        match event {
          case MainReturned(e) =>
            mainChannelError := e;
            if e.Some? {
              cacheMessages := cacheMessages + [Failure(e.value)];
              endLoop := true;
            }
          case CacheReturned(e) =>
            if e.Some? {
              cacheable := false;
            }
          case EndOfStream =>
            endLoop := true;
          case StreamFailed(e) =>
            mainMessages := mainMessages + [Failure(e)];
            if cacheable {
              cacheMessages := cacheMessages + [Failure(e)];
            }
            endLoop := true;
            grpcError := Some(e);
          case Received(chunk) =>
            mainMessages := mainMessages + [Chunk(chunk)];
            if cacheable {
              cacheMessages := cacheMessages + [Chunk(chunk)];
            }
        }
        i := i + 1;
        used := i;
      }
    }
  }

  // ----- The cache writer beside it -----

  /** The state of the writer that consumes the cache channel. */
  datatype Status = Writing | Saved | Failed

  datatype Fault = NoFault | CreateFails | LockFails | WriteFails

  /**
   Both sides together.  `returned` is what waits in the cache's return channel, and `disk`
   the bytes of the local file once it has been created.
   */
  datatype Transfer = Transfer(
    producer: Producer,
    consumed: nat,
    status: Status,
    disk: Option<Bytes>,
    returned: Option<Option<Error>>)

  datatype Step =
    | Produce(event: Event)
    | Consume(fault: Fault)
    | SeeClose

  predicate Allowed(t: Transfer, step: Step) {
    match step
    case Produce(e) =>
      t.producer.ending == Running && (e.CacheReturned? ==> t.returned == Some(e.err))
    case Consume(_) => t.status == Writing && t.consumed < |t.producer.cache|
    case SeeClose => t.status == Writing && t.consumed == |t.producer.cache| && t.producer.ending != Running
  }

  function Apply(t: Transfer, step: Step): Transfer
    requires Allowed(t, step)
  {
    match step
    case Produce(e) =>
      t.(producer := Turn(t.producer, e), returned := if e.CacheReturned? then None else t.returned)
    case Consume(fault) =>
      var m := t.producer.cache[t.consumed];
      var next := t.(consumed := t.consumed + 1);
      var written := if t.disk.Some? then t.disk.value else [];
      if t.disk == None && fault == CreateFails then next.(status := Failed, returned := Some(Some("create")))
      else if t.disk == None && fault == LockFails then next.(status := Failed, disk := Some([]), returned := Some(Some("lock")))
      else if m.err.Some? then next.(status := Failed, disk := None, returned := Some(m.err))
      else if fault == WriteFails then next.(status := Failed, disk := None, returned := Some(Some("write")))
      else next.(disk := Some(written + m.body))
    case SeeClose =>
      if t.disk.Some? then t.(status := Saved, returned := Some(None)) else t.(status := Failed)
  }

  function Begin(): Transfer {
    Transfer(Start(true), 0, Writing, None, None)
  }

  ghost predicate IsRun(run: seq<Transfer>, steps: seq<Step>) {
    && |run| == |steps| + 1 && run[0] == Begin()
    && forall i {:trigger steps[i]} :: 0 <= i < |steps| ==> Allowed(run[i], steps[i]) && run[i + 1] == Apply(run[i], steps[i])
  }

  /**
   Runs start with nothing sent and go on with every allowed step; and what the writer does
   when the file system works: it takes chunks, refuses errors, and saves at the close.
   */
  lemma TransferGoesOn(run: seq<Transfer>, steps: seq<Step>, t: Transfer, e: Event)
    ensures IsRun([Transfer(Producer([], [], true, [], Running), 0, Writing, None, None)], [])
    ensures forall step :: IsRun(run, steps) && Allowed(run[|steps|], step) ==>
              IsRun(run + [Apply(run[|steps|], step)], steps + [step])
    ensures t.producer.ending == Running && !e.CacheReturned? ==> Allowed(t, Produce(e))
    ensures t.status == Writing && t.consumed < |t.producer.cache| ==>
              Allowed(t, Consume(NoFault)) &&
              var m, u := t.producer.cache[t.consumed], Apply(t, Consume(NoFault));
              if m.err == None then u.status == Writing && u.disk == Some((if t.disk.Some? then t.disk.value else []) + m.body)
              else u.status == Failed && u.disk == None && u.returned == Some(m.err)
    ensures t.status == Writing && t.consumed == |t.producer.cache| && t.producer.ending != Running ==>
              Allowed(t, SeeClose) &&
              (t.disk.Some? ==> Apply(t, SeeClose).status == Saved && Apply(t, SeeClose).disk == t.disk)
  {
    forall step | IsRun(run, steps) && Allowed(run[|steps|], step)
      ensures IsRun(run + [Apply(run[|steps|], step)], steps + [step])
    {
      var moreRun, moreSteps := run + [Apply(run[|steps|], step)], steps + [step];
      forall i {:trigger moreSteps[i]} | 0 <= i < |moreSteps|
        ensures Allowed(moreRun[i], moreSteps[i]) && moreRun[i + 1] == Apply(moreRun[i], moreSteps[i])
      {
        assert i < |steps| ==> moreSteps[i] == steps[i];
      }
    }
  }

  /** The cache is only given up after its writer failed, and the file holds what was consumed. */
  ghost predicate TransferOk(t: Transfer) {
    && ChannelsOk(true, t.producer)
    && t.consumed <= |t.producer.cache|
    && (!t.producer.cacheable ==> t.status == Failed)
    && (t.returned.Some? && t.returned.value.Some? ==> t.status == Failed)
    && (t.status != Failed ==>
          && NoErrors(t.producer.cache[..t.consumed])
          && t.disk == if t.consumed == 0 then None else Some(Concat(Bodies(t.producer.cache[..t.consumed]))))
    && (t.status == Saved ==> t.consumed == |t.producer.cache| && t.consumed > 0 && t.producer.ending != Running)
  }

  lemma ProduceKeepsOk(t: Transfer, e: Event)
    requires TransferOk(t) && Allowed(t, Produce(e))
    ensures TransferOk(Apply(t, Produce(e)))
  {
    TurnKeepsChannels(true, t.producer, e);
    assert Turn(t.producer, e).cache[..t.consumed] == t.producer.cache[..t.consumed];
  }

  /** One more message read. */
  lemma ConsumedNext(cache: seq<Message>, k: nat, next: nat)
    requires k < |cache| && next == k + 1
    ensures Concat(Bodies(cache[..next])) == Concat(Bodies(cache[..k])) + cache[k].body
    ensures NoErrors(cache[..next]) <==> NoErrors(cache[..k]) && cache[k].err == None
    ensures k == 0 ==> Concat(Bodies(cache[..k])) == []
  {
    assert cache[..next] == cache[..k] + [cache[k]];
    BodiesOneMore(cache[..k], cache[k]);
    ConcatOneMore(Bodies(cache[..k]), cache[k].body);
  }

  lemma BodiesOneMore(messages: seq<Message>, m: Message)
    ensures Bodies(messages + [m]) == Bodies(messages) + [m.body]
    ensures NoErrors(messages + [m]) <==> NoErrors(messages) && m.err == None
  {
    assert forall i :: 0 <= i < |messages| ==> (messages + [m])[i] == messages[i];
    assert (messages + [m])[|messages|] == m;
  }

  lemma ConsumeKeepsOk(t: Transfer, fault: Fault)
    requires TransferOk(t) && Allowed(t, Consume(fault))
    ensures TransferOk(Apply(t, Consume(fault)))
  {
    var u := Apply(t, Consume(fault));
    ConsumedNext(t.producer.cache, t.consumed, u.consumed);
    assert u.producer == t.producer;
  }

  lemma {:induction false} RunsKeepOk(run: seq<Transfer>, steps: seq<Step>, i: nat)
    requires IsRun(run, steps) && i <= |steps|
    ensures TransferOk(run[i])
  {
    if i == 0 {
      assert Chunks([]) == [];
    } else {
      RunsKeepOk(run, steps, i - 1);
      var t, step := run[i - 1], steps[i - 1];
      match step
      case Produce(e) => ProduceKeepsOk(t, e);
      case Consume(fault) => ConsumeKeepsOk(t, fault);
      case SeeClose =>
    }
  }

  /** A loop that came to the regular end has received every chunk before it. */
  lemma SavedMeansEnded(run: seq<Transfer>, steps: seq<Step>, i: nat)
    requires IsRun(run, steps) && i <= |steps|
    ensures var events, p := EventsOf(steps[..i]), run[i].producer;
            p.ending == Complete ==> events != [] && events[|events| - 1] == EndOfStream && p.received == ReceivedChunks(events)
  {
    RunIsTurns(run, steps, i);
    var events, p := EventsOf(steps[..i]), run[i].producer;
    if p.ending == Complete {
      var n := |events| - 1;
      var front, last := events[..n], events[n];
      assert events == front + [last];
      ChannelsAreToldBy(true, front, last, events, p);
    }
  }

  /** A loop that ended with an error told the cache so. */
  lemma FailureIsSent(p: Producer)
    requires ChannelsOk(true, p) && p.cacheable && (p.ending.MainError? || p.ending.StreamError?)
    ensures !NoErrors(p.cache)
  {
    assert p.cache[|p.cache| - 1] == Failure(p.ending.err);
  }

  /** The select outcomes of a run. */
  function EventsOf(steps: seq<Step>): seq<Event> {
    if steps == [] then []
    else
      var n := |steps| - 1;
      EventsOf(steps[..n]) + match steps[n] case Produce(e) => [e] case _ => []
  }

  /** The events so far, told by whether the loop still runs. */
  ghost predicate EndsAsToldBy(p: Producer, events: seq<Event>) {
    && p == Turns(Start(true), events)
    && (p.ending == Running ==> forall i :: 0 <= i < |events| ==> !Ends(events[i]))
    && (p.ending != Running ==>
          events != [] && Ends(events[|events| - 1]) && forall i :: 0 <= i < |events| - 1 ==> !Ends(events[i]))
  }

  lemma OneMoreEvent(p: Producer, events: seq<Event>, e: Event)
    requires EndsAsToldBy(p, events) && p.ending == Running
    ensures EndsAsToldBy(Turn(p, e), events + [e])
  {
    TurnsOneMore(Start(true), events, e);
    var more := events + [e];
    assert more[|events|] == e && forall i :: 0 <= i < |events| ==> more[i] == events[i];
  }

  lemma {:induction false} RunIsTurns(run: seq<Transfer>, steps: seq<Step>, i: nat)
    requires IsRun(run, steps) && i <= |steps|
    ensures EndsAsToldBy(run[i].producer, EventsOf(steps[..i]))
  {
    if i > 0 {
      var before := i - 1;
      RunIsTurns(run, steps, before);
      var step := steps[before];
      assert steps[..i][..before] == steps[..before] && steps[..i][before] == step;
      match step
      case Produce(e) => OneMoreEvent(run[before].producer, EventsOf(steps[..before]), e);
      case _ => assert EventsOf(steps[..i]) == EventsOf(steps[..before]);
    }
  }

  /**
   In every interleaving, a file that the writer saved holds exactly the concatenation of
   all chunks received up to the regular end of the stream.
   */
  lemma SavedMeansComplete(run: seq<Transfer>, steps: seq<Step>, i: nat)
    requires IsRun(run, steps) && i <= |steps| && run[i].status == Saved
    ensures run[i].producer.ending == Complete
    ensures run[i].disk == Some(Concat(run[i].producer.received)) && run[i].producer.received != []
    ensures var events := EventsOf(steps[..i]);
            events != [] && events[|events| - 1] == EndOfStream && run[i].disk == Some(Concat(ReceivedChunks(events)))
  {
    SavedMeansEnded(run, steps, i);
    RunsKeepOk(run, steps, i);
    var p := run[i].producer;
    assert p.cache[..run[i].consumed] == p.cache;
    if p.ending.MainError? || p.ending.StreamError? {
      FailureIsSent(p);
    }
    BodiesOfChunks(p.received);
    assert p.cache == Chunks(p.received);
  }

  /**
   The same for the messages of a finished loop as a whole, which is how the cache insertion
   takes them: a stream without errors on a cache channel never given up is complete.
   */
  lemma ErrorFreeCacheStreamIsComplete(events: seq<Event>)
    requires var p := Turns(Start(true), events); p.ending != Running && p.cacheable && NoErrors(p.cache)
    ensures var p := Turns(Start(true), events);
            p.ending == Complete && Concat(Bodies(p.cache)) == Concat(p.received)
  {
    RunsKeepChannels(true, events);
    var p := Turns(Start(true), events);
    if p.ending.MainError? || p.ending.StreamError? {
      FailureIsSent(p);
    }
    BodiesOfChunks(p.received);
    assert p.cache == Chunks(p.received);
  }
}
