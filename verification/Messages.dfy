/** Bytes, and the messages that travel on a redirection channel. */
module Messages {
  import opened EdgePeers

  newtype byte = b: int | 0 <= b < 256

  type Bytes = seq<byte>

  type Error = string

  /** A chunk of the stream, or the notice that the stream failed. */
  datatype Message = Message(body: Bytes, err: Option<Error>)

  function Chunk(body: Bytes): Message {
    Message(body, None)
  }

  function Failure(e: Error): Message {
    Message([], Some(e))
  }

  function Chunks(bodies: seq<Bytes>): (r: seq<Message>)
    ensures |r| == |bodies|
  {
    seq(|bodies|, i requires 0 <= i < |bodies| => Chunk(bodies[i]))
  }

  /** A stream of chunks, with at most one error at its end. */
  function Stream(bodies: seq<Bytes>, err: Option<Error>): seq<Message> {
    Chunks(bodies) + match err case Some(e) => [Failure(e)] case None => []
  }

  function Concat(chunks: seq<Bytes>): Bytes {
    if chunks == [] then [] else Concat(chunks[..|chunks| - 1]) + chunks[|chunks| - 1]
  }

  function Bodies(messages: seq<Message>): (r: seq<Bytes>)
    ensures |r| == |messages|
  {
    seq(|messages|, i requires 0 <= i < |messages| => messages[i].body)
  }

  predicate NoErrors(messages: seq<Message>) {
    forall i :: 0 <= i < |messages| ==> messages[i].err == None
  }

  lemma BodiesOfChunks(bodies: seq<Bytes>)
    ensures Bodies(Chunks(bodies)) == bodies && NoErrors(Chunks(bodies))
  {
  }

  /** Without errors, a stream is its chunks. */
  lemma StreamIs(bodies: seq<Bytes>, err: Option<Error>)
    ensures NoErrors(Stream(bodies, err)) <==> err == None
    ensures err == None ==> Bodies(Stream(bodies, err)) == bodies
  {
    BodiesOfChunks(bodies);
    if err.Some? {
      assert Stream(bodies, err)[|bodies|] == Failure(err.value);
    } else {
      assert Stream(bodies, err) == Chunks(bodies);
    }
  }

  /** The concatenation of a prefix is a prefix of the concatenation. */
  lemma {:induction false} ConcatPrefix(chunks: seq<Bytes>, n: nat)
    requires n <= |chunks|
    ensures Concat(chunks[..n]) <= Concat(chunks)
    decreases |chunks| - n
  {
    if n < |chunks| {
      ConcatUpTo(chunks, n, n + 1);
      ConcatPrefix(chunks, n + 1);
    } else {
      assert chunks[..n] == chunks;
    }
  }

  lemma ConcatOneMore(chunks: seq<Bytes>, chunk: Bytes)
    ensures Concat(chunks + [chunk]) == Concat(chunks) + chunk
  {
    assert (chunks + [chunk])[..|chunks|] == chunks;
  }

  lemma ConcatUpTo(chunks: seq<Bytes>, i: nat, next: nat)
    requires i < |chunks| && next == i + 1
    ensures Concat(chunks[..next]) == Concat(chunks[..i]) + chunks[i]
  {
    assert chunks[..next][..i] == chunks[..i];
  }
}
