/**
 The two S3 stream adapters.  A download is rebuffered into chunks of a fixed size through
 one reused buffer; an upload is read piecewise out of the chunks of a channel.  Buffers
 are arrays, so that a copied chunk and an aliased one differ.
 */
module ChunkStreams {
  import opened EdgePeers
  import opened Messages

  /** The bytes of a list of queued buffers, oldest first. */
  function Flat(queue: seq<array<byte>>): Bytes
    reads queue
  {
    if queue == [] then [] else Flat(queue[..|queue| - 1]) + queue[|queue| - 1][..]
  }

  lemma FlatOneMore(queue: seq<array<byte>>, a: array<byte>)
    ensures Flat(queue + [a]) == Flat(queue) + a[..]
  {
    assert (queue + [a])[..|queue|] == queue;
  }

  lemma JoinRest(queued: Bytes, received: Bytes, source: Bytes, from: nat)
    requires from <= |source| && queued == received + source[..from]
    ensures queued + source[from..] == received + source
  {
  }

  lemma PrefixOfPrefix(sent: Bytes, kept: Bytes, received: Bytes, all: Bytes)
    requires sent + kept == received && received <= all
    ensures sent <= all
  {
    assert sent == received[..|sent|];
  }

  lemma JoinsAt(whole: Bytes, front: Bytes, rest: Bytes)
    requires |whole| == |front| + |rest|
    requires forall i :: 0 <= i < |front| ==> whole[i] == front[i]
    requires forall i :: 0 <= i < |rest| ==> whole[|front| + i] == rest[i]
    ensures whole == front + rest
  {
  }

  /** What the select at the start of a write finds on the return channels. */
  datatype Signal = ClientReturned | CacheReturned | Quiet

  class DownloadStream {
    const flushSize: nat
    var buffer: array<byte>              // the backing array of DownloadBuffer
    var len: nat                         // the length of DownloadBuffer
    var isFileCacheable: bool
    var clientSent: seq<array<byte>>     // every body sent to the client channel, oldest first
    var cacheSent: seq<array<byte>>      // and to the cache channel
    ghost var received: Bytes            // the concatenation of the sources accepted so far

    /** The two queues carry the same chunks, the cache's possibly fewer. */
    ghost predicate CacheFollows()
      reads this, clientSent, cacheSent
    {
      && |cacheSent| <= |clientSent|
      && (forall i :: 0 <= i < |cacheSent| ==> cacheSent[i][..] == clientSent[i][..])
      && (isFileCacheable ==> |cacheSent| == |clientSent|)
    }

    ghost predicate Valid()
      reads this, buffer, clientSent, cacheSent
    {
      && flushSize > 0 && len <= buffer.Length
      && buffer !in clientSent && buffer !in cacheSent
      && (forall i :: 0 <= i < |clientSent| ==> clientSent[i].Length == flushSize)
      && CacheFollows()
      && Flat(clientSent) + buffer[..len] == received
    }

    constructor (flushSize: nat, isFileCacheable: bool)
      requires flushSize > 0
      ensures Valid() && len == 0 && received == [] && clientSent == [] && cacheSent == []
      ensures this.flushSize == flushSize && this.isFileCacheable == isFileCacheable && fresh(buffer)
    {
      this.flushSize, this.isFileCacheable := flushSize, isFileCacheable;
      buffer := new byte[0];
      len := 0;
      clientSent, cacheSent, received := [], [], [];
    }

    /** Go's append of the first `n` bytes of `source`: in place when the capacity allows, else reallocated. */
    method Append(source: array<byte>, n: nat)
      requires n <= source.Length && len <= buffer.Length && source != buffer
      modifies this`buffer, this`len, buffer
      ensures len == old(len) + n && len <= buffer.Length
      ensures buffer[..len] == old(buffer[..len]) + source[..n]
      ensures buffer == old(buffer) || fresh(buffer)
    {
      if len + n > buffer.Length {
        Grow(len + n);
      }
      ghost var before := buffer[..len];
      var end := len + n;
      forall i | 0 <= i < n {
        buffer[len + i] := source[i];
      }
      JoinsAt(buffer[..end], before, source[..n]);
      len := end;
    }

    /** Moves the buffer into a larger array. */
    method Grow(needed: nat)
      requires len <= buffer.Length && len <= needed
      modifies this`buffer
      ensures fresh(buffer) && buffer.Length >= needed && buffer[..len] == old(buffer[..len])
    {
      var capacity: nat :| capacity >= needed;
      var larger := new byte[capacity](_ => 0);
      forall i | 0 <= i < len {
        larger[i] := buffer[i];
      }
      buffer := larger;
    }

    /** Sends a private copy of the buffer to the client and, while cacheable, to the cache. */
    method WriteAndRedirectBuffer() returns (redirected: nat)
      requires len <= buffer.Length && CacheFollows()
      modifies this`clientSent, this`cacheSent
      ensures redirected == len
      ensures |clientSent| == |old(clientSent)| + 1 && clientSent[..|old(clientSent)|] == old(clientSent)
      ensures fresh(clientSent[|old(clientSent)|]) && clientSent[|old(clientSent)|][..] == buffer[..len]
      ensures Flat(clientSent) == old(Flat(clientSent)) + buffer[..len]
      ensures forall a :: a in cacheSent ==> a in old(cacheSent) || fresh(a)
      ensures CacheFollows()
    {
      var clientCopy := CopyBuffer();
      FlatOneMore(clientSent, clientCopy);
      clientSent := clientSent + [clientCopy];
      if isFileCacheable {
        var cacheCopy := CopyBuffer();
        cacheSent := cacheSent + [cacheCopy];
      }
      redirected := len;
    }

    method CopyBuffer() returns (copy: array<byte>)
      requires len <= buffer.Length
      ensures fresh(copy) && copy[..] == buffer[..len]
    {
      copy := new byte[len](_ => 0);
      forall i | 0 <= i < len {
        copy[i] := buffer[i];
      }
    }

    /** The branch without overflow. */
    method BufferSource(source: array<byte>)
      requires Valid() && source != buffer && source !in clientSent && source !in cacheSent
      modifies this`buffer, this`len, this`received, buffer
      ensures Valid() && (buffer == old(buffer) || fresh(buffer))
      ensures len == old(len) + source.Length && received == old(received) + source[..]
    {
      ghost var queued := Flat(clientSent);
      Append(source, source.Length);
      received := received + source[..];
      assert Flat(clientSent) == queued;
      assert source[..source.Length] == source[..];
    }

    /** Fills the buffer up to the flush size and sends it. */
    method FillAndSend(source: array<byte>, fitSize: nat)
      requires Valid() && source != buffer && source !in clientSent && source !in cacheSent
      requires len + fitSize == flushSize && fitSize <= source.Length
      modifies this`buffer, this`len, this`clientSent, this`cacheSent, buffer
      ensures buffer == old(buffer) || fresh(buffer)
      ensures buffer.Length >= flushSize
      ensures buffer !in clientSent && buffer !in cacheSent && CacheFollows()
      ensures forall i :: 0 <= i < |clientSent| ==> clientSent[i].Length == flushSize
      ensures |clientSent| == |old(clientSent)| + 1 && clientSent[..|old(clientSent)|] == old(clientSent)
      ensures forall a :: a in clientSent || a in cacheSent ==> a in old(clientSent) || a in old(cacheSent) || fresh(a)
      ensures Flat(clientSent) == received + source[..fitSize]
    {
      ghost var queued := Flat(clientSent);
      ghost var before := buffer[..len];
      Append(source, fitSize);
      assert Flat(clientSent) == queued;
      assert queued + (before + source[..fitSize]) == received + source[..fitSize];
      var _ := WriteAndRedirectBuffer();
      assert clientSent[|clientSent| - 1][..] == buffer[..len];
    }

    /** Reslices the buffer and copies the rest of the source into the SAME array. */
    method KeepRest(source: array<byte>, from: nat)
      requires from <= source.Length && source.Length - from <= buffer.Length && source != buffer && flushSize > 0
      requires buffer !in clientSent && buffer !in cacheSent && CacheFollows()
      requires forall i :: 0 <= i < |clientSent| ==> clientSent[i].Length == flushSize
      requires Flat(clientSent) == received + source[..from]
      modifies this`len, this`received, buffer
      ensures Valid() && len == source.Length - from && received == old(received) + source[..]
    {
      ghost var queued := Flat(clientSent);
      len := source.Length - from;
      forall i | 0 <= i < len {
        buffer[i] := source[from + i];
      }
      assert buffer[..len] == source[from..];
      JoinRest(queued, received, source[..], from);
      received := received + source[..];
      assert Flat(clientSent) == queued;
    }

    /** The overflowing branch. */
    method Spill(source: array<byte>) returns (panicked: bool)
      requires Valid() && source != buffer && source !in clientSent && source !in cacheSent
      requires len + source.Length > flushSize
      modifies this`buffer, this`len, this`clientSent, this`cacheSent, this`received, buffer
      ensures buffer == old(buffer) || fresh(buffer)
      ensures panicked <==> old(len) > flushSize || old(len) + source.Length - flushSize > buffer.Length
      ensures buffer.Length >= flushSize || old(len) > flushSize
      ensures !panicked ==> Valid() && len == old(len) + source.Length - flushSize && received == old(received) + source[..]
      ensures !panicked ==> |clientSent| == |old(clientSent)| + 1 && clientSent[..|old(clientSent)|] == old(clientSent)
      ensures forall a :: a in clientSent || a in cacheSent ==> a in old(clientSent) || a in old(cacheSent) || fresh(a)
    {
      if len > flushSize {
        return true;
      }
      var fitSize := flushSize - len;
      FillAndSend(source, fitSize);
      if source.Length - fitSize > buffer.Length {
        return true;
      }
      KeepRest(source, fitSize);
      panicked := false;
    }

    /**
     Takes one source.  It panics exactly when the buffer is already over-full or what is
     left of the source after filling it exceeds the buffer's capacity; otherwise nothing
     is lost, and a chunk leaves only when the buffer overflows.
     */
    method WriteAt(source: array<byte>, signal: Signal) returns (sent: int, panicked: bool)
      requires Valid() && source != buffer && source !in clientSent && source !in cacheSent
      modifies this, buffer
      ensures buffer == old(buffer) || fresh(buffer)
      ensures signal == ClientReturned ==> sent == -1 && !panicked && Valid() && received == old(received) && len == old(len)
      ensures signal != ClientReturned ==>
                (panicked <==> old(len) + source.Length > flushSize &&
                               (old(len) > flushSize || old(len) + source.Length - flushSize > buffer.Length))
      ensures old(len) <= flushSize && old(len) + source.Length <= 2 * flushSize ==> !panicked && len <= flushSize
      ensures !panicked ==> Valid() && isFileCacheable == (old(isFileCacheable) && signal != CacheReturned)
      ensures !panicked && signal != ClientReturned ==> sent == source.Length && received == old(received) + source[..]
      ensures !panicked && signal != ClientReturned ==>
                |clientSent| == |old(clientSent)| + if old(len) + source.Length > flushSize then 1 else 0
      ensures !panicked ==> old(clientSent) <= clientSent
      ensures forall a :: a in clientSent || a in cacheSent ==> a in old(clientSent) || a in old(cacheSent) || fresh(a)
    {
      sent, panicked := source.Length, false;
      match signal {
        case ClientReturned =>
          return -1, panicked;
        case CacheReturned =>
          isFileCacheable := false;
        case Quiet =>
      }
      if len + source.Length <= flushSize {
        BufferSource(source);
      } else {
        panicked := Spill(source);
      }
    }

    /** The end of the stream: what is still buffered is sent, and the buffer is left as it is. */
    method Flush() returns (redirected: nat)
      requires Valid()
      modifies this`clientSent, this`cacheSent
      ensures redirected == len
      ensures Flat(clientSent) == received && CacheFollows()
      ensures |clientSent| == |old(clientSent)| + (if len > 0 then 1 else 0) && old(clientSent) <= clientSent
      ensures forall i :: 0 <= i < |old(clientSent)| ==> clientSent[i].Length == flushSize
      ensures len > 0 ==> clientSent[|clientSent| - 1][..] == buffer[..len]
    {
      redirected := 0;
      if len > 0 {
        redirected := WriteAndRedirectBuffer();
      }
    }
  }

  /** Queues with equal chunks hold equal bytes. */
  lemma {:induction false} FlatOfEqualChunks(a: seq<array<byte>>, b: seq<array<byte>>)
    requires |a| <= |b| && forall i :: 0 <= i < |a| ==> a[i][..] == b[i][..]
    ensures Flat(a) == Flat(b[..|a|])
  {
    if a != [] {
      var n := |a| - 1;
      FlatOfEqualChunks(a[..n], b[..n]);
      assert b[..n][..n] == b[..|a|][..n];
    }
  }

  /** Queues with equal chunks: one is a prefix of the other. */
  lemma ContentsOfPrefix(a: seq<array<byte>>, b: seq<array<byte>>)
    requires |a| <= |b| && forall i :: 0 <= i < |a| ==> a[i][..] == b[i][..]
    ensures Contents(a) <= Contents(b)
  {
  }

  /**
   A whole download.  It ends early when the client's side returned, and `failure` is the
   downloader's own error after it wrote all of `sources`.  The client gets the bytes of the
   sources in order, in chunks of the flush size but for the last: all of them if there is no
   error, and otherwise whole chunks of a prefix and then the error.  The cache gets the same
   chunks until its side returned, and the error whenever the file was cacheable at first.
   */
  method SendFromS3(sources: seq<array<byte>>, signals: seq<Signal>, failure: Option<Error>, flushSize: nat, isFileCacheable: bool)
    returns (clientMessages: seq<Message>, cacheMessages: seq<Message>, err: Option<Error>, panicked: bool,
             ghost chunks: seq<Bytes>, ghost cacheChunks: seq<Bytes>)
    requires flushSize > 0 && |signals| == |sources|
    ensures (forall s :: s in sources ==> s.Length <= flushSize) ==> !panicked
    ensures !panicked ==> (err == None <==> failure == None && ClientReturned !in signals)
    ensures !panicked ==> clientMessages == Stream(chunks, err) && Concat(chunks) <= old(Flat(sources))
    ensures !panicked && err == None ==> Concat(chunks) == old(Flat(sources))
    ensures !panicked ==> forall i :: 0 <= i < (if err == None then |chunks| - 1 else |chunks|) ==> |chunks[i]| == flushSize
    ensures !panicked ==> cacheMessages == Stream(cacheChunks, if isFileCacheable then err else None) && cacheChunks <= chunks
    ensures !panicked && isFileCacheable && CacheReturned !in signals ==> cacheChunks == chunks
  {
    clientMessages, cacheMessages, err, chunks, cacheChunks := [], [], None, [], [];
    var stream := new DownloadStream(flushSize, isFileCacheable);
    ghost var parts := Contents(sources);
    FlatIsConcat(sources);
    var fed, stopped;
    fed, stopped, panicked := FeedAll(stream, sources, signals);
    if panicked {
      return;
    }
    ConcatPrefix(parts, fed);
    assert !stopped ==> parts[..fed] == parts;
    err := if stopped then Some("client returned") else failure;
    var toClient, toCache := Finish(stream, err == None);
    chunks, cacheChunks := toClient, toCache;
    clientMessages := Stream(toClient, err);
    cacheMessages := Stream(toCache, if isFileCacheable then err else None);
  }

  /** Flushes a stream that came to its regular end, and collects what was sent. */
  method Finish(stream: DownloadStream, complete: bool) returns (toClient: seq<Bytes>, toCache: seq<Bytes>)
    requires stream.Valid()
    modifies stream
    ensures Concat(toClient) <= old(stream.received) && (complete ==> Concat(toClient) == old(stream.received))
    ensures forall i :: 0 <= i < (if complete then |toClient| - 1 else |toClient|) ==> |toClient[i]| == stream.flushSize
    ensures toCache <= toClient && (old(stream.isFileCacheable) ==> toCache == toClient)
  {
    PrefixOfPrefix(Flat(stream.clientSent), stream.buffer[..stream.len], stream.received, stream.received);
    if complete {
      var _ := stream.Flush();
    }
    toClient, toCache := Queued(stream);
  }

  /** What the two channels hold. */
  method Queued(stream: DownloadStream) returns (toClient: seq<Bytes>, toCache: seq<Bytes>)
    requires stream.CacheFollows()
    ensures Concat(toClient) == Flat(stream.clientSent) && |toClient| == |stream.clientSent|
    ensures forall i :: 0 <= i < |toClient| ==> |toClient[i]| == stream.clientSent[i].Length
    ensures toCache <= toClient && (stream.isFileCacheable ==> toCache == toClient)
  {
    FlatIsConcat(stream.clientSent);
    ContentsOfPrefix(stream.cacheSent, stream.clientSent);
    toClient, toCache := Contents(stream.clientSent), Contents(stream.cacheSent);
  }

  /** Writes the parts in order, until the client's side returned. */
  method FeedAll(stream: DownloadStream, sources: seq<array<byte>>, signals: seq<Signal>)
    returns (fed: nat, stopped: bool, panicked: bool)
    requires stream.Valid() && stream.received == [] && stream.len == 0 && stream.clientSent == [] && stream.cacheSent == []
    requires stream.buffer !in sources && |signals| == |sources|
    modifies stream, stream.buffer
    ensures (forall s :: s in sources ==> s.Length <= stream.flushSize) ==> !panicked
    ensures fed <= |sources| && (stopped ==> fed < |sources| && signals[fed] == ClientReturned)
    ensures !panicked && !stopped ==> fed == |sources| && ClientReturned !in signals
    ensures !panicked ==> stream.Valid() && stream.received == Concat(old(Contents(sources))[..fed])
    ensures !panicked ==>
              (stream.isFileCacheable <==> old(stream.isFileCacheable) && forall k :: 0 <= k < fed ==> signals[k] != CacheReturned)
  {
    ghost var parts := Contents(sources);
    fed, stopped, panicked := 0, false, false;
    while fed < |sources| && !stopped && !panicked
      invariant fed <= |sources| && (stream.buffer == old(stream.buffer) || fresh(stream.buffer))
      invariant forall a :: a in stream.clientSent || a in stream.cacheSent ==> fresh(a)
      invariant (forall s :: s in sources ==> s.Length <= stream.flushSize) ==> !panicked && stream.len <= stream.flushSize
      invariant stopped ==> fed < |sources| && signals[fed] == ClientReturned
      invariant !panicked ==> stream.Valid() && stream.received == Concat(parts[..fed])
      invariant forall k :: 0 <= k < fed ==> signals[k] != ClientReturned
      invariant !panicked ==>
                  (stream.isFileCacheable <==> old(stream.isFileCacheable) && forall k :: 0 <= k < fed ==> signals[k] != CacheReturned)
      decreases |sources| - fed, !stopped && !panicked
    {
      var sent;
      sent, panicked := stream.WriteAt(sources[fed], signals[fed]);
      stopped := signals[fed] == ClientReturned;
      if !stopped && !panicked {
        var next := fed + 1;
        ConcatUpTo(parts, fed, next);
        fed := next;
      }
    }
  }

  function Contents(queue: seq<array<byte>>): (r: seq<Bytes>)
    reads queue
    ensures |r| == |queue|
  {
    seq(|queue|, i requires 0 <= i < |queue| reads queue => queue[i][..])
  }

  lemma {:induction false} FlatIsConcat(queue: seq<array<byte>>)
    ensures Flat(queue) == Concat(Contents(queue))
  {
    if queue != [] {
      var n := |queue| - 1;
      FlatIsConcat(queue[..n]);
      assert Contents(queue)[..n] == Contents(queue[..n]);
    }
  }

  // ----- Reading an upload piecewise -----

  datatype ReadResult = Ok | Eof | Failed(err: Error)

  lemma {:induction false} FlatFirst(queue: seq<array<byte>>)
    requires queue != []
    ensures Flat(queue) == queue[0][..] + Flat(queue[1..])
  {
    var n := |queue| - 1;
    if n > 0 {
      FlatFirst(queue[..n]);
      assert queue[1..][..n - 1] == queue[..n][1..];
    } else {
      assert queue[..n] == [] && queue[1..] == [];
    }
  }

  class UploadStream {
    var residual: array<byte>           // the array ResidualChunk is a slice of
    var low: nat                        // and the bounds of that slice
    var high: nat
    var pending: seq<array<byte>>       // the chunks the channel still delivers
    var failure: Option<Error>          // then an error message, or else the close

    ghost predicate Valid()
      reads this
    {
      low <= high <= residual.Length
    }

    /** Everything a reader can still get: the residual chunk and the channel behind it. */
    ghost function Rest(): Bytes
      reads this, residual, pending
      requires Valid()
    {
      residual[low..high] + Flat(pending)
    }

    constructor (pending: seq<array<byte>>, failure: Option<Error>)
      ensures Valid() && this.pending == pending && this.failure == failure && fresh(residual)
      ensures Rest() == Flat(pending)
    {
      residual := new byte[0];
      low, high := 0, 0;
      this.pending, this.failure := pending, failure;
      new;
      assert residual[low..high] == [];
    }

    /** Hands out the front of a chunk and keeps the rest as the residual slice. */
    method Deliver(dest: array<byte>, chunk: array<byte>, from: nat, to: nat) returns (n: nat)
      requires from <= to <= chunk.Length && Valid() && dest != chunk && dest != residual
      modifies this`residual, this`low, this`high, dest
      ensures Valid() && n <= dest.Length && (residual == chunk || (residual == old(residual) && low == high))
      ensures dest[..n] + residual[low..high] == chunk[from..to]
      ensures dest[n..] == old(dest[..])[n..]
      ensures n < dest.Length ==> low == high
    {
      var chunkLen := to - from;
      n := if dest.Length > chunkLen then chunkLen else dest.Length;
      forall i | 0 <= i < n {
        dest[i] := chunk[from + i];
      }
      assert dest[..n] == chunk[from..from + n];
      if dest.Length > chunkLen {
        high := low;
        assert residual[low..high] == [];
      } else {
        residual, low, high := chunk, from + n, to;
      }
    }

    method ReadResidual(dest: array<byte>) returns (n: nat)
      requires Valid() && dest != residual && dest !in pending && low < high
      modifies this`residual, this`low, this`high, dest
      ensures Valid() && n <= dest.Length && dest[n..] == old(dest[..])[n..]
      ensures old(Rest()) == dest[..n] + Rest()
      ensures n < dest.Length ==> low == high
    {
      ghost var behind := Flat(pending);
      n := Deliver(dest, residual, low, high);
      assert Flat(pending) == behind;
    }

    method ReadNextChunk(dest: array<byte>) returns (n: nat)
      requires Valid() && dest != residual && dest !in pending && low == high && pending != []
      modifies this`residual, this`low, this`high, this`pending, dest
      ensures Valid() && n <= dest.Length && dest[n..] == old(dest[..])[n..]
      ensures old(Rest()) == dest[..n] + Rest()
      ensures n < dest.Length ==> low == high
    {
      assert residual[low..high] == [];
      FlatFirst(pending);
      var chunk := pending[0];
      pending := pending[1..];
      ghost var behind := Flat(pending);
      n := Deliver(dest, chunk, 0, chunk.Length);
      assert Flat(pending) == behind;
      assert chunk[0..chunk.Length] == chunk[..];
    }

    /**
     One read.  What it puts in `dest`, followed by what is left, is what there was; an end
     or an error is only reported when nothing is left before it.
     */
    method Read(dest: array<byte>) returns (n: nat, result: ReadResult)
      requires Valid() && dest != residual && dest !in pending
      modifies this, dest
      ensures Valid() && n <= dest.Length && dest[n..] == old(dest[..])[n..]
      ensures result == Ok <==> old(low < high || pending != [])
      ensures result == Ok ==> old(Rest()) == dest[..n] + Rest() && failure == old(failure)
      ensures result == Ok && n < dest.Length ==> low == high
      ensures result != Ok ==> n == 0 && old(Rest()) == [] && Rest() == [] && failure == None
      ensures result != Ok ==> result == match old(failure) case None => Eof case Some(e) => Failed(e)
    {
      if low < high {
        n := ReadResidual(dest);
        result := Ok;
      } else if pending != [] {
        n := ReadNextChunk(dest);
        result := Ok;
      } else {
        n := 0;
        assert residual[low..high] == [];
        match failure {
          case Some(e) =>
            failure := None;
            result := Failed(e);
          case None =>
            result := Eof;
        }
      }
    }
  }

  lemma Associative(a: Bytes, b: Bytes, c: Bytes)
    ensures a + (b + c) == (a + b) + c
  {
  }

  /**
   Any sequence of reads, with any destination sizes: the bytes handed out so far and what
   is left are always the whole upload, and once a read does not return data they are all
   of it.
   */
  method ReadRepeatedly(stream: UploadStream, sizes: seq<nat>) returns (out: Bytes, last: ReadResult)
    requires stream.Valid()
    modifies stream
    ensures stream.Valid()
    ensures out + stream.Rest() == old(stream.Rest())
    ensures last != Ok ==> out == old(stream.Rest())
  {
    out, last := [], Ok;
    ghost var all := stream.Rest();
    for i := 0 to |sizes|
      invariant stream.Valid() && last == Ok
      invariant out + stream.Rest() == all
    {
      var dest := new byte[sizes[i]](_ => 0);
      var n;
      n, last := stream.Read(dest);
      if last != Ok {
        return;
      }
      Associative(out, dest[..n], stream.Rest());
      out := out + dest[..n];
    }
  }
}
