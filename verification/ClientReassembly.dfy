/**
 The client's end of a download: chunks numbered by the edge are written to a file, and a
 chunk number of 0 in mid-stream means that the edge restarted from another source.
 */
module ClientReassembly {
  import opened EdgePeers
  import opened Messages
  import opened ChunkStreams

  datatype FileChunk = FileChunk(chunk: Bytes, seqNum: int)

  // ----- The sending edge -----

  /** Chunks numbered from 0. */
  function Numbered(bodies: seq<Bytes>): (r: seq<FileChunk>)
    ensures |r| == |bodies|
  {
    seq(|bodies|, i requires 0 <= i < |bodies| => FileChunk(bodies[i], i))
  }

  /**
   Sends the messages of one attempt to the client, up to the first error message or the
   first send that fails.
   */
  method RedirectStreamToClient(messages: seq<Message>, failingSend: Option<nat>)
    returns (sent: seq<FileChunk>, err: Option<Error>)
    ensures exists k :: 0 <= k <= |messages| && NoErrors(messages[..k]) && sent == Numbered(Bodies(messages)[..k])
    ensures err == None <==> NoErrors(messages) && (failingSend.Some? ==> failingSend.value >= |messages|)
    ensures err == None ==> sent == Numbered(Bodies(messages))
    ensures |sent| <= |messages| && forall i :: 0 <= i < |sent| ==> sent[i].seqNum == i && sent[i].chunk == messages[i].body
    ensures err == None ==> |sent| == |messages| && forall i :: 0 <= i < |messages| ==> messages[i].err == None
  {
    sent, err := [], None;
    var seqNumber := 0;
    for i := 0 to |messages|
      invariant seqNumber == i && NoErrors(messages[..i]) && sent == Numbered(Bodies(messages)[..i])
      invariant failingSend.Some? ==> failingSend.value >= i
    {
      var message := messages[i];
      if message.err.Some? {
        return sent, message.err;
      }
      if failingSend == Some(i) {
        return sent, Some("send");
      }
      sent := sent + [FileChunk(message.body, seqNumber)];
      seqNumber := seqNumber + 1;
    }
    assert messages[..|messages|] == messages;
    assert Bodies(messages)[..|messages|] == Bodies(messages);
  }

  // ----- The client's file -----

  /** The bytes of the file and the position of the next write. */
  datatype FileState = FileState(content: Bytes, pos: nat) {
    predicate Valid() {
      pos <= |content|
    }
  }

  function WriteAtPos(s: FileState, data: Bytes): (r: FileState)
    requires s.Valid()
    ensures r.Valid()
  {
    var end := s.pos + |data|;
    FileState(s.content[..s.pos] + data + (if end < |s.content| then s.content[end..] else []), end)
  }

  class OutputFile {
    var state: FileState

    constructor ()
      ensures state == FileState([], 0)
    {
      state := FileState([], 0);
    }

    method Seek0()
      modifies this
      ensures state == old(state).(pos := 0)
    {
      state := state.(pos := 0);
    }

    method Write(data: Bytes)
      requires state.Valid()
      modifies this
      ensures state == WriteAtPos(old(state), data)
    {
      state := WriteAtPos(state, data);
    }
  }

  /** Chunk `i` continues the numbering or restarts it. */
  predicate Continues(chunks: seq<FileChunk>, i: nat)
    requires i < |chunks|
  {
    chunks[i].seqNum == 0 || (i > 0 && chunks[i].seqNum == chunks[i - 1].seqNum + 1)
  }

  predicate WellNumbered(chunks: seq<FileChunk>) {
    forall i :: 0 <= i < |chunks| ==> Continues(chunks, i)
  }

  lemma PrefixWellNumbered(chunks: seq<FileChunk>, n: nat)
    requires n <= |chunks| && forall k :: 0 <= k < n ==> Continues(chunks, k)
    ensures WellNumbered(chunks[..n])
  {
    forall k | 0 <= k < n
      ensures Continues(chunks[..n], k)
    {
      assert Continues(chunks, k);
    }
  }

  /** What accepted chunks leave behind: number 0 goes back to the start of the file. */
  function Replay(s: FileState, chunks: seq<FileChunk>): (r: FileState)
    requires s.Valid()
    ensures r.Valid()
  {
    if chunks == [] then s
    else
      var before := Replay(s, chunks[..|chunks| - 1]);
      var last := chunks[|chunks| - 1];
      WriteAtPos(if last.seqNum == 0 then before.(pos := 0) else before, last.chunk)
  }

  lemma ReplayNext(chunks: seq<FileChunk>, i: nat)
    requires i < |chunks|
    ensures var before := Replay(FileState([], 0), chunks[..i]);
            Replay(FileState([], 0), chunks[..i + 1]) ==
            WriteAtPos(if chunks[i].seqNum == 0 then before.(pos := 0) else before, chunks[i].chunk)
  {
    assert chunks[..i + 1][..i] == chunks[..i];
  }

  /** Writes the chunks into a newly opened file; it fails exactly at the first gap in the numbering. */
  method WriteChunks(file: OutputFile, chunks: seq<FileChunk>) returns (failed: bool, ghost accepted: nat)
    requires file.state == FileState([], 0)
    modifies file
    ensures accepted <= |chunks| && file.state == Replay(FileState([], 0), chunks[..accepted])
    ensures WellNumbered(chunks[..accepted])
    ensures failed <==> !WellNumbered(chunks)
    ensures accepted > 0 ==> chunks[0].seqNum == 0
    ensures forall i, j :: 0 <= i < j < accepted && j == i + 1 ==> chunks[j].seqNum == 0 || chunks[j].seqNum == chunks[i].seqNum + 1
    ensures failed ==> accepted < |chunks| && chunks[accepted].seqNum != 0 &&
                       (accepted > 0 ==> chunks[accepted].seqNum != chunks[accepted - 1].seqNum + 1)
    ensures failed <==> !exists attempts :: chunks == Attempts(attempts)
    ensures exists attempts :: chunks[..accepted] == Attempts(attempts) && file.state.content == OverlayAll(attempts)
    ensures failed ==> accepted < |chunks| && !exists attempts :: chunks[..accepted + 1] == Attempts(attempts)
    ensures failed ==> accepted < |chunks| && !Continues(chunks, accepted)
    ensures !failed ==> accepted == |chunks|
  {
    failed, accepted := WriteUpToGap(file, chunks);
    NumberedIffAttempts(chunks);
    var attempts := NumberedAttempts(chunks[..accepted]);
    AttemptsOverlay(attempts);
    NumbersFollow(chunks[..accepted]);
    if failed {
      GapIsNoAttempt(chunks, accepted);
    }
  }

  /** The loop. */
  method WriteUpToGap(file: OutputFile, chunks: seq<FileChunk>) returns (failed: bool, ghost accepted: nat)
    requires file.state == FileState([], 0)
    modifies file
    ensures accepted <= |chunks| && file.state == Replay(FileState([], 0), chunks[..accepted])
    ensures WellNumbered(chunks[..accepted])
    ensures failed <==> !WellNumbered(chunks)
    ensures failed ==> accepted < |chunks| && !Continues(chunks, accepted)
    ensures !failed ==> accepted == |chunks|
  {
    var seqNum := 0;
    accepted := 0;
    failed := false;
    for i := 0 to |chunks|
      invariant accepted == i && !failed
      invariant file.state == Replay(FileState([], 0), chunks[..i])
      invariant seqNum == (if i == 0 then 0 else chunks[i - 1].seqNum + 1) && (i > 0 ==> seqNum > 0)
      invariant forall k :: 0 <= k < i ==> Continues(chunks, k)
    {
      var chunk := chunks[i];
      ReplayNext(chunks, i);
      if chunk.seqNum != seqNum {
        if chunk.seqNum == 0 {
          file.Seek0();
          seqNum := 0;
        } else {
          failed := true;
          assert !Continues(chunks, i);
          PrefixWellNumbered(chunks, i);
          return;
        }
      }
      file.Write(chunk.chunk);
      seqNum := seqNum + 1;
      accepted := i + 1;
    }
    assert chunks[..|chunks|] == chunks;
  }

  // ----- Attempts: any number of cut-off ones, then a complete one -----

  /** The chunks of several attempts in a row, each numbered from 0. */
  function Attempts(attempts: seq<seq<Bytes>>): seq<FileChunk> {
    if attempts == [] then [] else Attempts(attempts[..|attempts| - 1]) + Numbered(attempts[|attempts| - 1])
  }

  /** `data` written over the start of `content`: nothing is truncated. */
  function Overlay(content: Bytes, data: Bytes): Bytes {
    data + if |data| < |content| then content[|data|..] else []
  }

  function OverlayAll(attempts: seq<seq<Bytes>>): Bytes {
    if attempts == [] then [] else Overlay(OverlayAll(attempts[..|attempts| - 1]), Concat(attempts[|attempts| - 1]))
  }

  lemma {:induction false} ReplayJoin(s: FileState, a: seq<FileChunk>, b: seq<FileChunk>)
    requires s.Valid()
    ensures Replay(s, a + b) == Replay(Replay(s, a), b)
  {
    if b == [] {
      assert a + b == a;
    } else {
      assert (a + b)[..|a + b| - 1] == a + b[..|b| - 1];
      ReplayJoin(s, a, b[..|b| - 1]);
    }
  }

  lemma {:induction false} ReplayAttempt(s: FileState, bodies: seq<Bytes>)
    requires s.Valid() && bodies != []
    ensures Replay(s, Numbered(bodies)) == FileState(Overlay(s.content, Concat(bodies)), |Concat(bodies)|)
  {
    var n := |bodies| - 1;
    assert Numbered(bodies)[..n] == Numbered(bodies[..n]);
    if n > 0 {
      ReplayAttempt(s, bodies[..n]);
      OverlayExtends(s.content, Concat(bodies[..n]), bodies[n]);
    } else {
      assert bodies[..n] == [];
    }
  }

  lemma OverlayExtends(content: Bytes, data: Bytes, more: Bytes)
    ensures WriteAtPos(FileState(Overlay(content, data), |data|), more) ==
            FileState(Overlay(content, data + more), |data + more|)
  {
    var o := Overlay(content, data);
    assert o[..|data|] == data;
    if |data| + |more| < |content| {
      assert o[|data| + |more|..] == content[|data| + |more|..];
    }
  }

  /** Whatever the attempts deliver, the file ends as each one written over what was there. */
  lemma {:induction false} AttemptsOverlay(attempts: seq<seq<Bytes>>)
    ensures WellNumbered(Attempts(attempts))
    ensures Replay(FileState([], 0), Attempts(attempts)).content == OverlayAll(attempts)
  {
    if attempts != [] {
      var n := |attempts| - 1;
      AttemptsOverlay(attempts[..n]);
      var before := Replay(FileState([], 0), Attempts(attempts[..n]));
      ReplayJoin(FileState([], 0), Attempts(attempts[..n]), Numbered(attempts[n]));
      if attempts[n] != [] {
        ReplayAttempt(before, attempts[n]);
      } else {
        assert Overlay(before.content, []) == before.content;
      }
      NumberedJoins(Attempts(attempts[..n]), attempts[n]);
    }
  }

  lemma NumberedOneMore(bodies: seq<Bytes>, body: Bytes)
    ensures Numbered(bodies + [body]) == Numbered(bodies) + [FileChunk(body, |bodies|)]
  {
  }

  lemma AttemptsOneMore(attempts: seq<seq<Bytes>>, bodies: seq<Bytes>)
    ensures Attempts(attempts + [bodies]) == Attempts(attempts) + Numbered(bodies)
  {
    assert (attempts + [bodies])[..|attempts|] == attempts;
  }

  /** Well numbered chunks are those of some attempts, the last of which ends with the last number. */
  lemma {:induction false} NumberedAttempts(chunks: seq<FileChunk>) returns (attempts: seq<seq<Bytes>>)
    requires WellNumbered(chunks)
    ensures chunks == Attempts(attempts)
    ensures chunks != [] ==> attempts != [] && |attempts[|attempts| - 1]| == chunks[|chunks| - 1].seqNum + 1
    decreases |chunks|
  {
    if chunks == [] {
      attempts := [];
    } else {
      var n := |chunks| - 1;
      var front, last := chunks[..n], chunks[n];
      assert chunks == front + [last] && Continues(chunks, n);
      PrefixWellNumbered(chunks, n);
      var before := NumberedAttempts(front);
      if last.seqNum == 0 {
        assert Numbered([last.chunk]) == [last];
        AttemptsOneMore(before, [last.chunk]);
        attempts := before + [[last.chunk]];
      } else {
        var m := |before| - 1;
        var bodies := before[m];
        assert before == before[..m] + [bodies];
        NumberedOneMore(bodies, last.chunk);
        AttemptsOneMore(before[..m], bodies);
        AttemptsOneMore(before[..m], bodies + [last.chunk]);
        assert front[n - 1] == chunks[n - 1];
        attempts := before[..m] + [bodies + [last.chunk]];
      }
    }
  }

  /** Chunks are accepted exactly when they are those of some attempts, each numbered from 0. */
  lemma NumberedIffAttempts(chunks: seq<FileChunk>)
    ensures WellNumbered(chunks) <==> exists attempts :: chunks == Attempts(attempts)
  {
    if WellNumbered(chunks) {
      var attempts := NumberedAttempts(chunks);
    }
    if attempts :| chunks == Attempts(attempts) {
      AttemptsOverlay(attempts);
    }
  }

  lemma NumbersFollow(chunks: seq<FileChunk>)
    requires WellNumbered(chunks)
    ensures chunks != [] ==> chunks[0].seqNum == 0
    ensures forall i, j :: 0 <= i < j < |chunks| && j == i + 1 ==> chunks[j].seqNum == 0 || chunks[j].seqNum == chunks[i].seqNum + 1
  {
    if chunks != [] {
      assert Continues(chunks, 0);
    }
    forall i, j | 0 <= i < j < |chunks| && j == i + 1
      ensures chunks[j].seqNum == 0 || chunks[j].seqNum == chunks[i].seqNum + 1
    {
      assert Continues(chunks, j);
    }
  }

  /** Up to and with the first gap, they are not. */
  lemma GapIsNoAttempt(chunks: seq<FileChunk>, i: nat)
    requires i < |chunks| && !Continues(chunks, i)
    ensures !exists attempts :: chunks[..i + 1] == Attempts(attempts)
  {
    NumberedIffAttempts(chunks[..i + 1]);
    assert !Continues(chunks[..i + 1], i);
  }

  lemma NumberedJoins(chunks: seq<FileChunk>, bodies: seq<Bytes>)
    requires WellNumbered(chunks)
    ensures WellNumbered(chunks + Numbered(bodies))
  {
    var all := chunks + Numbered(bodies);
    forall i | 0 <= i < |all|
      ensures Continues(all, i)
    {
      if i < |chunks| {
        assert Continues(chunks, i);
      }
    }
  }

  lemma LengthOfOverlay(content: Bytes, data: Bytes, bound: nat)
    ensures |Overlay(content, data)| <= bound <==> |content| <= bound && |data| <= bound
  {
  }

  ghost predicate NoneLonger(attempts: seq<seq<Bytes>>, bound: nat) {
    forall i :: 0 <= i < |attempts| ==> |Concat(attempts[i])| <= bound
  }

  lemma NoneLongerOneMore(attempts: seq<seq<Bytes>>, last: seq<Bytes>, bound: nat)
    ensures NoneLonger(attempts + [last], bound) <==> NoneLonger(attempts, bound) && |Concat(last)| <= bound
  {
    if NoneLonger(attempts + [last], bound) {
      forall i | 0 <= i < |attempts|
        ensures |Concat(attempts[i])| <= bound
      {
        assert (attempts + [last])[i] == attempts[i];
      }
      assert (attempts + [last])[|attempts|] == last;
    }
  }

  lemma {:induction false} OverlayLength(attempts: seq<seq<Bytes>>, bound: nat)
    ensures |OverlayAll(attempts)| <= bound <==> NoneLonger(attempts, bound)
  {
    if attempts != [] {
      var front, last := attempts[..|attempts| - 1], attempts[|attempts| - 1];
      OverlayLength(front, bound);
      LengthOfOverlay(OverlayAll(front), Concat(last), bound);
      NoneLongerOneMore(front, last, bound);
      assert attempts == front + [last];
    }
  }

  /**
   The file ends with exactly the bytes of the last attempt if and only if no earlier
   attempt delivered more bytes than it: the client never truncates.
   */
  lemma LastAttemptWinsIff(attempts: seq<seq<Bytes>>, last: seq<Bytes>)
    ensures WellNumbered(Attempts(attempts + [last]))
    ensures Replay(FileState([], 0), Attempts(attempts + [last])).content == Concat(last) <==>
              forall i :: 0 <= i < |attempts| ==> |Concat(attempts[i])| <= |Concat(last)|
  {
    AttemptsOverlay(attempts + [last]);
    assert (attempts + [last])[..|attempts|] == attempts;
    OverlayLength(attempts, |Concat(last)|);
  }

  /**
   After any cut-off attempts at the same content, under any chunking, and one complete
   attempt, the file holds exactly the content.
   */
  lemma RetriesReassemble(content: Bytes, attempts: seq<seq<Bytes>>, last: seq<Bytes>)
    requires forall i :: 0 <= i < |attempts| ==> Concat(attempts[i]) <= content
    requires Concat(last) == content
    ensures WellNumbered(Attempts(attempts + [last]))
    ensures Replay(FileState([], 0), Attempts(attempts + [last])).content == content
  {
    LastAttemptWinsIff(attempts, last);
    assert forall i :: 0 <= i < |attempts| ==> |Concat(attempts[i])| <= |content|;
  }

  /** A longer attempt at other content leaves its tail behind. */
  lemma ShorterContentKeepsATail(first: Bytes, second: Bytes)
    requires |second| < |first|
    ensures Replay(FileState([], 0), Attempts([[first]] + [[second]])).content == second + first[|second|..]
  {
    AttemptsOverlay([[first]] + [[second]]);
    assert ([[first]] + [[second]])[..1] == [[first]];
    assert [[first]][..0] == [];
    assert Concat([first]) == first && Concat([second]) == second by {
      assert [first][..0] == [] && [second][..0] == [];
    }
    assert OverlayAll([[first]]) == first;
  }

  // ----- Cutting a file into chunks for upload -----

  /** Reads the file in pieces of the chunk size; only the last may be shorter, and none is empty. */
  method GetChunks(content: Bytes, chunkSize: nat) returns (chunks: seq<Bytes>)
    requires chunkSize > 0
    ensures Concat(chunks) == content
    ensures forall i :: 0 <= i < |chunks| ==> 0 < |chunks[i]| <= chunkSize
    ensures forall i :: 0 <= i < |chunks| - 1 ==> |chunks[i]| == chunkSize
  {
    chunks := [];
    var pos := 0;
    while pos < |content|
      invariant pos <= |content| && Concat(chunks) == content[..pos]
      invariant forall i :: 0 <= i < |chunks| ==> 0 < |chunks[i]| <= chunkSize
      invariant pos < |content| ==> forall i :: 0 <= i < |chunks| ==> |chunks[i]| == chunkSize
      invariant forall i :: 0 <= i < |chunks| - 1 ==> |chunks[i]| == chunkSize
      decreases |content| - pos
    {
      var end := if pos + chunkSize <= |content| then pos + chunkSize else |content|;
      var chunk := content[pos..end];
      ConcatOneMore(chunks, chunk);
      assert content[..end] == content[..pos] + chunk;
      chunks := chunks + [chunk];
      pos := end;
    }
  }

  // ----- From S3 to the client's file -----

  /** One numbered attempt, read by a client that opens the file, leaves the concatenation of its chunks. */
  lemma OneAttempt(bodies: seq<Bytes>)
    ensures WellNumbered(Numbered(bodies))
    ensures Replay(FileState([], 0), Numbered(bodies)).content == Concat(bodies)
  {
    assert Attempts([bodies]) == Numbered(bodies) by {
      assert [bodies][..0] == [] && Attempts([]) == [];
    }
    AttemptsOverlay([bodies]);
    assert OverlayAll([bodies]) == Concat(bodies) by {
      assert [bodies][..0] == [];
    }
  }

  /**
   A download composed of its three stages.  The client's file always holds a prefix of what
   S3 delivered, and all of it if no stage reports an error.
   */
  method DownloadFromS3(sources: seq<array<byte>>, signals: seq<Signal>, failure: Option<Error>, flushSize: nat,
                        isFileCacheable: bool, failingSend: Option<nat>)
    returns (file: OutputFile, err: Option<Error>)
    requires flushSize > 0 && |signals| == |sources| && forall s :: s in sources ==> s.Length <= flushSize
    ensures fresh(file) && file.state.content <= old(Flat(sources))
    ensures err == None ==> file.state.content == old(Flat(sources)) && failure == None && ClientReturned !in signals
    ensures failure == None && failingSend == None && ClientReturned !in signals ==> err == None
  {
    var clientMessages, cacheMessages, s3Error, panicked, chunks, cacheChunks :=
      SendFromS3(sources, signals, failure, flushSize, isFileCacheable);
    StreamIs(chunks, s3Error);
    var sent;
    sent, err := RedirectStreamToClient(clientMessages, failingSend);
    ghost var k := SentPrefix(chunks, s3Error, clientMessages, sent);
    assert err == None ==> k == |chunks| && chunks[..k] == chunks;
    ConcatPrefix(chunks, k);
    OneAttempt(chunks[..k]);
    file := new OutputFile();
    var failed, accepted := WriteChunks(file, sent);
    assert sent[..|sent|] == sent;
  }

  /** What is sent of a stream is a numbered prefix of its chunks. */
  lemma SentPrefix(chunks: seq<Bytes>, s3Error: Option<Error>, messages: seq<Message>, sent: seq<FileChunk>) returns (k: nat)
    requires messages == Stream(chunks, s3Error)
    requires exists k :: 0 <= k <= |messages| && NoErrors(messages[..k]) && sent == Numbered(Bodies(messages)[..k])
    ensures k == |sent| <= |chunks| && sent == Numbered(chunks[..k])
  {
    k :| 0 <= k <= |messages| && NoErrors(messages[..k]) && sent == Numbered(Bodies(messages)[..k]);
    if s3Error.Some? {
      NoErrorBefore(messages, k, |chunks|);
    }
    assert Bodies(messages)[..k] == chunks[..k];
  }

  lemma NoErrorBefore(messages: seq<Message>, k: nat, j: nat)
    requires k <= |messages| && j < |messages| && messages[j].err.Some? && NoErrors(messages[..k])
    ensures k <= j
  {
    assert forall i :: 0 <= i < k ==> messages[..k][i] == messages[i];
  }
}
