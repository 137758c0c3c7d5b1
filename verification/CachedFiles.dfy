/** The cached files, shared between the cache's queue and its map. */
module CachedFiles {
  import opened EdgePeers

  class File {
    const fileName: string
    const fileSize: nat
    const timestamp: Time
    var popularity: int

    constructor (fileName: string, fileSize: nat, timestamp: Time, popularity: int)
      ensures this.fileName == fileName && this.fileSize == fileSize && this.timestamp == timestamp
      ensures this.popularity == popularity
    {
      this.fileName, this.fileSize, this.timestamp, this.popularity := fileName, fileSize, timestamp, popularity;
    }
  }

  /** No two entries of the queue have the same name. */
  predicate UniqueNames(list: seq<File>) {
    forall i, j :: 0 <= i < j < |list| ==> list[i].fileName != list[j].fileName
  }

  /** Queue and map hold the same objects, each once and under its own name. */
  predicate Agree(list: seq<File>, index: map<string, File>) {
    && UniqueNames(list)
    && (forall f :: f in list ==> f.fileName in index && index[f.fileName] == f)
    && (forall n :: n in index ==> index[n] in list && index[n].fileName == n)
  }

  /** Every entry of `s` is one of `files`. */
  predicate From(s: seq<File>, files: seq<File>) {
    forall k :: 0 <= k < |s| ==> s[k] in files
  }

  function Without(list: seq<File>, i: nat): seq<File>
    requires i < |list|
  {
    list[..i] + list[i + 1..]
  }

  lemma RemainingFiles(list: seq<File>, i: nat)
    requires UniqueNames(list) && i < |list|
    ensures UniqueNames(Without(list, i))
    ensures forall f :: f in Without(list, i) <==> f in list && f != list[i]
  {
    var rest := Without(list, i);
    assert forall k :: 0 <= k < |rest| ==> rest[k] == list[if k < i then k else k + 1];
    forall f | f in list && f != list[i]
      ensures f in rest
    {
      var k :| 0 <= k < |list| && list[k] == f;
      assert f == rest[if k < i then k else k - 1];
    }
  }

  lemma AgreeAfterRemoval(list: seq<File>, index: map<string, File>, i: nat)
    requires Agree(list, index) && i < |list|
    ensures Agree(Without(list, i), index - {list[i].fileName})
  {
    RemainingFiles(list, i);
  }

  lemma AgreeAfterAppend(list: seq<File>, index: map<string, File>, f: File)
    requires Agree(list, index) && f.fileName !in index
    ensures Agree(list + [f], index[f.fileName := f])
  {
    var more := list + [f];
    forall n | n in index
      ensures index[n] in more
    {
    }
    assert more[|list|] == f;
  }

  lemma AgreeAfterSwap(list: seq<File>, index: map<string, File>, i: nat, j: nat)
    requires Agree(list, index) && i < |list| && j < |list|
    ensures Agree(list[i := list[j]][j := list[i]], index)
    ensures multiset(list[i := list[j]][j := list[i]]) == multiset(list)
  {
    var s := list[i := list[j]][j := list[i]];
    forall f | f in list
      ensures f in s
    {
      var k :| 0 <= k < |list| && list[k] == f;
      assert s[if k == i then j else if k == j then i else k] == f;
    }
  }
}
