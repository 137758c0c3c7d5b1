/**
 Transfers composed with the cache insertion that runs beside them: what a newly indexed
 file holds.
 */
module CachedTransfers {
  import opened EdgePeers
  import opened Messages
  import opened CachedFiles
  import opened CacheExpiry
  import opened EdgeCache
  import opened ChunkStreams
  import StreamRedirection

  /** Turns after the end of the loop change nothing. */
  lemma {:induction false} TurnsStop(p: StreamRedirection.Producer, events: seq<StreamRedirection.Event>, used: nat)
    requires used <= |events| && StreamRedirection.Turns(p, events[..used]).ending != StreamRedirection.Running
    ensures StreamRedirection.Turns(p, events) == StreamRedirection.Turns(p, events[..used])
  {
    if used < |events| {
      assert events[..|events| - 1][..used] == events[..used];
      TurnsStop(p, events[..|events| - 1], used);
    } else {
      assert events[..used] == events;
    }
  }

  /** The cache is given up only after its writer returned an error. */
  lemma {:induction false} StaysCacheable(events: seq<StreamRedirection.Event>)
    requires forall i :: 0 <= i < |events| ==> !(events[i].CacheReturned? && events[i].err.Some?)
    ensures StreamRedirection.Turns(StreamRedirection.Start(true), events).cacheable
  {
    if events != [] {
      StaysCacheable(events[..|events| - 1]);
      assert !(events[|events| - 1].CacheReturned? && events[|events| - 1].err.Some?);
    }
  }

  /** A loop that saw an ending event has ended. */
  lemma {:induction false} EndedTurns(cacheable: bool, events: seq<StreamRedirection.Event>, used: nat)
    requires 0 < used <= |events| && StreamRedirection.Ends(events[used - 1])
    requires forall i :: 0 <= i < used - 1 ==> !StreamRedirection.Ends(events[i])
    ensures StreamRedirection.Turns(StreamRedirection.Start(cacheable), events[..used]).ending != StreamRedirection.Running
  {
    assert events[..used][..used - 1] == events[..used - 1];
  }

  lemma CompleteIsToldBy(events: seq<StreamRedirection.Event>, used: nat)
    requires 0 < used <= |events| && StreamRedirection.Ends(events[used - 1])
    requires forall i :: 0 <= i < used - 1 ==> !StreamRedirection.Ends(events[i])
    ensures var p := StreamRedirection.Turns(StreamRedirection.Start(true), events[..used]);
            && p.received == StreamRedirection.ReceivedChunks(events[..used])
            && (p.ending == StreamRedirection.Complete ==> events[used - 1] == StreamRedirection.EndOfStream)
  {
    var told, front := events[..used], events[..used - 1];
    assert told == front + [events[used - 1]];
    StreamRedirection.ChannelsAreToldBy(true, front, events[used - 1], told,
                                        StreamRedirection.Turns(StreamRedirection.Start(true), told));
  }

  /**
   A received stream redirected to the cache.  The writer reports an error only if it has not
   written the whole channel (`honest`).  Then a newly indexed file holds exactly all chunks
   received, and the stream came to its regular end.
   */
  method ReceiveIntoCache(cache: Cache, channels: StreamRedirection.RedirectionChannels, events: seq<StreamRedirection.Event>,
                          lastReturn: Option<Error>, fileName: string, fileSize: nat, faults: WriteFaults,
                          freeMemory: int, d: Deadline, corrected: bool, relocks: bool)
    returns (err: Option<Error>, blocked: bool, ghost honest: bool, ghost used: nat)
    requires cache.Valid()
    requires exists i :: 0 <= i < |events| && StreamRedirection.Ends(events[i])
    requires channels.mainMessages == [] && channels.cacheMessages == [] && channels.mainCloses == 0 && channels.cacheCloses == 0
    modifies channels, cache, cache.cachingList
    ensures cache.Valid()
    ensures honest <==> ((exists i :: 0 <= i < |events| && events[i].CacheReturned? && events[i].err.Some?) ==>
                           !WriteSucceeds(channels.cacheMessages, faults))
    ensures honest && fileName !in old(cache.cachingMap) && fileName in cache.cachingMap ==>
              var p := StreamRedirection.Turns(StreamRedirection.Start(true), events);
              p.ending == StreamRedirection.Complete && fileName in cache.disk && cache.disk[fileName] == Concat(p.received)
    ensures 0 < used <= |events| && (forall i :: 0 <= i < used - 1 ==> !StreamRedirection.Ends(events[i]))
    ensures honest && fileName !in old(cache.cachingMap) && fileName in cache.cachingMap ==>
              && events[used - 1] == StreamRedirection.EndOfStream
              && fileName in cache.disk && cache.disk[fileName] == Concat(StreamRedirection.ReceivedChunks(events[..used]))
  {
    err, used := channels.RcvAndRedirectChunks(events, true, lastReturn);
    ghost var p := StreamRedirection.Turns(StreamRedirection.Start(true), events);
    EndedTurns(true, events, used);
    TurnsStop(StreamRedirection.Start(true), events, used);
    honest := (exists i :: 0 <= i < |events| && events[i].CacheReturned? && events[i].err.Some?) ==> !WriteSucceeds(channels.cacheMessages, faults);
    if honest && WriteSucceeds(channels.cacheMessages, faults) {
      StaysCacheable(events);
      StreamRedirection.ErrorFreeCacheStreamIsComplete(events);
    }
    CompleteIsToldBy(events, used);
    var required;
    ghost var sorted, deleted;
    blocked, required, sorted, deleted :=
      cache.InsertFileInCache(fileName, fileSize, channels.cacheMessages, faults, freeMemory, d, corrected, relocks);
  }

  /**
   A download from S3 that is cached on its way, under the same assumption on the writer: a
   newly indexed file holds exactly what S3 delivered, and the download did not fail.
   */
  method DownloadIntoCache(cache: Cache, sources: seq<array<byte>>, signals: seq<Signal>, failure: Option<Error>, flushSize: nat,
                           fileName: string, fileSize: nat, faults: WriteFaults,
                           freeMemory: int, d: Deadline, corrected: bool, relocks: bool)
    returns (clientMessages: seq<Message>, cacheMessages: seq<Message>, blocked: bool)
    requires cache.Valid() && flushSize > 0 && |signals| == |sources|
    requires forall s :: s in sources ==> s.Length <= flushSize
    modifies cache, cache.cachingList
    ensures cache.Valid()
    ensures (CacheReturned in signals ==> !WriteSucceeds(cacheMessages, faults)) &&
            fileName !in old(cache.cachingMap) && fileName in cache.cachingMap ==>
              && failure == None && ClientReturned !in signals
              && fileName in cache.disk && cache.disk[fileName] == old(Flat(sources))
  {
    var err, panicked;
    ghost var chunks, cacheChunks;
    clientMessages, cacheMessages, err, panicked, chunks, cacheChunks := SendFromS3(sources, signals, failure, flushSize, true);
    StreamIs(cacheChunks, err);
    var required;
    ghost var sorted, deleted;
    blocked, required, sorted, deleted :=
      cache.InsertFileInCache(fileName, fileSize, cacheMessages, faults, freeMemory, d, corrected, relocks);
  }

  /**
   The writer of the interleaved protocol and the one of the insertion agree: what the first
   saved is what the second leaves on success, from the same channel.
   */
  lemma SavedIsWritten(run: seq<StreamRedirection.Transfer>, steps: seq<StreamRedirection.Step>, i: nat)
    requires StreamRedirection.IsRun(run, steps) && i <= |steps| && run[i].status == StreamRedirection.Saved
    ensures WriteSucceeds(run[i].producer.cache, WriteFaults(false, false, None))
    ensures run[i].disk == Some(Concat(Bodies(run[i].producer.cache)))
  {
    StreamRedirection.RunsKeepOk(run, steps, i);
    var cache := run[i].producer.cache;
    assert cache[..run[i].consumed] == cache;
  }
}
