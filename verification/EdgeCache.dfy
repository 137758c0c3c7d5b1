/**
 The edge cache: a queue of files kept in a slice, a map over the same file objects, and
 the files on disk.  Removals shift the slice's backing array in place.
 */
module EdgeCache {
  import opened EdgePeers
  import opened Messages
  import opened CachedFiles
  import opened CacheExpiry
  import opened CacheEviction

  /** What a removal did. */
  datatype Removal = Removed | NotDeleted | OnlyDeleted | SliceOutOfBounds

  /**
   What the file system does during a removal: opening, locking or deleting the file may fail,
   and unlocking may fail once the file has been deleted.
   */
  datatype RemovalFault = NoFault | DeleteFails | UnlockFails

  /** What the file system does while a stream is being written. */
  datatype WriteFaults = WriteFaults(createFails: bool, lockFails: bool, failingWrite: Option<nat>)

  ghost predicate SortedByPopularity(s: seq<File>)
    reads s
  {
    forall i, j :: 0 <= i < j < |s| ==> s[i].popularity <= s[j].popularity
  }

  /** The stream was not empty, carried no error, and the file system took all of it. */
  predicate WriteSucceeds(messages: seq<Message>, faults: WriteFaults) {
    && messages != [] && NoErrors(messages)
    && !faults.createFails && !faults.lockFails
    && (faults.failingWrite.Some? ==> faults.failingWrite.value >= |messages|)
  }

  /** One message at a time: a stream is taken as long as its messages are chunks and no write fails. */
  lemma WriteSucceedsOneMore(messages: seq<Message>, m: Message, faults: WriteFaults)
    ensures !WriteSucceeds([], faults)
    ensures WriteSucceeds(messages + [m], faults) <==>
              && m.err == None && faults.failingWrite != Some(|messages|)
              && if messages == [] then !faults.createFails && !faults.lockFails else WriteSucceeds(messages, faults)
  {
    assert (messages + [m])[|messages|] == m;
    assert forall i :: 0 <= i < |messages| ==> (messages + [m])[i] == messages[i];
  }

  /** Exactly what left the index left the disk. */
  predicate LostTogether(files: map<string, Bytes>, index: set<string>, filesAfter: map<string, Bytes>, indexAfter: set<string>) {
    indexAfter <= index && filesAfter == files - (index - indexAfter)
  }

  /** What an eviction with the written choice deletes from the sorted queue. */
  predicate WrittenDeletes(sorted: seq<File>, required: int, corrected: bool, names: set<string>, deleted: seq<File>) {
    !corrected ==> deleted == Deletable(WrittenChoice(sorted, required), names)
  }

  lemma OneMoreLost(files: map<string, Bytes>, index: set<string>, filesAfter: map<string, Bytes>, indexAfter: set<string>, name: string)
    requires LostTogether(files, index, filesAfter, indexAfter) && name in indexAfter
    ensures LostTogether(files, index, filesAfter - {name}, indexAfter - {name})
  {
    assert index - (indexAfter - {name}) == index - indexAfter + {name};
  }

  lemma LostTwice(files: map<string, Bytes>, index: set<string>, files1: map<string, Bytes>, index1: set<string>,
                  files2: map<string, Bytes>, index2: set<string>)
    requires LostTogether(files, index, files1, index1)
    ensures LostTogether(files1, index1, files2, index2) ==> LostTogether(files, index, files2, index2)
  {
    if index2 <= index1 {
      assert index - index2 == (index - index1) + (index1 - index2);
    }
  }

  /** The first `i` files are in their final places. */
  ghost predicate PrefixSorted(list: seq<File>, i: nat)
    reads list
  {
    forall j, k :: 0 <= j < k < |list| && j < i ==> list[j].popularity <= list[k].popularity
  }

  lemma SwapSorts(list: seq<File>, i: nat, least: nat)
    requires i <= least < |list| && PrefixSorted(list, i)
    requires forall j :: i <= j < |list| ==> list[least].popularity <= list[j].popularity
    ensures PrefixSorted(list[i := list[least]][least := list[i]], i + 1)
  {
  }

  lemma ShiftedSlots(before: seq<File>, after: seq<File>, index: nat, n: nat)
    requires index <= n < |before| == |after|
    requires forall k :: 0 <= k < index || n <= k < |before| ==> after[k] == before[k]
    requires forall k :: index <= k < n ==> after[k] == before[k + 1]
    ensures after[..n] == Without(before[..n + 1], index) && after == after[..n] + before[n..]
  {
  }

  lemma AllSorted(list: seq<File>, n: nat)
    requires n == |list| && PrefixSorted(list, n)
    ensures SortedByPopularity(list)
  {
  }

  lemma WrittenNext(messages: seq<Message>, i: nat, written: Bytes)
    requires i < |messages| && written == Concat(Bodies(messages[..i]))
    ensures written + messages[i].body == Concat(Bodies(messages[..i + 1]))
  {
    ConcatOneMore(Bodies(messages[..i]), messages[i].body);
    assert Bodies(messages[..i + 1]) == Bodies(messages[..i]) + [messages[i].body];
  }

  class Cache {
    var cachingList: array<File>   // the backing array of the queue
    var count: nat                 // the length of the queue
    var cachingMap: map<string, File>
    var disk: map<string, Bytes>

    ghost function List(): seq<File>
      reads this, cachingList
      requires count <= cachingList.Length
    {
      cachingList[..count]
    }

    ghost predicate Valid()
      reads this, cachingList
    {
      count <= cachingList.Length && Agree(List(), cachingMap)
    }

    constructor ()
      ensures Valid() && List() == [] && disk == map[] && fresh(cachingList)
    {
      cachingList := new File[0];
      count := 0;
      cachingMap := map[];
      disk := map[];
    }

    method IncrementPopularity(fileName: string) returns (ok: bool)
      requires Valid()
      modifies cachingMap.Values
      ensures Valid() && List() == old(List())
      ensures ok <==> fileName in cachingMap
      ensures forall f :: f in List() ==>
                f.popularity == old(f.popularity) + if f.fileName == fileName then 1 else 0
    {
      ok := fileName in cachingMap;
      if ok {
        var file := cachingMap[fileName];
        file.popularity := file.popularity + 1;
      }
    }

    /** A lookup: it reports presence, and raises the popularity of a file that is there. */
    method IsFileInCache(fileName: string) returns (isInCache: bool)
      requires Valid()
      modifies cachingMap.Values
      ensures Valid() && List() == old(List())
      ensures isInCache <==> exists f :: f in List() && f.fileName == fileName
      ensures forall f :: f in List() ==>
                f.popularity == old(f.popularity) + if f.fileName == fileName then 1 else 0
    {
      isInCache := fileName in cachingMap;
      if isInCache {
        var _ := IncrementPopularity(fileName);
      }
    }

    method GetFileSize(fileName: string) returns (size: int)
      requires Valid()
      ensures fileName in cachingMap ==> size == cachingMap[fileName].fileSize
      ensures fileName !in cachingMap ==> size == -1
    {
      for i := 0 to count
        invariant forall k :: 0 <= k < i ==> cachingList[k].fileName != fileName
      {
        assert cachingList[i] in List();
        if cachingList[i].fileName == fileName {
          return cachingList[i].fileSize;
        }
      }
      assert forall f :: f in List() ==> f.fileName != fileName;
      size := -1;
    }

    /** A new file gets popularity 1; a file inserted meanwhile by another request gains one. */
    method InsertFileInQueue(fileName: string, fileSize: nat, now: Time)
      requires Valid()
      modifies this`cachingList, this`count, this`cachingMap, cachingList
      modifies if fileName in cachingMap then {cachingMap[fileName]} else {}
      ensures Valid() && (cachingList == old(cachingList) || fresh(cachingList))
      ensures fileName in old(cachingMap) ==> List() == old(List()) && cachingMap == old(cachingMap)
      ensures fileName !in old(cachingMap) ==>
                && |List()| == old(|List()|) + 1
                && List()[..|List()| - 1] == old(List())
                && var f := List()[|List()| - 1];
                   && fresh(f) && f.fileName == fileName && f.fileSize == fileSize && f.timestamp == now
                   && f.popularity == 1
                   && cachingMap == old(cachingMap)[fileName := f]
      ensures forall f :: f in old(List()) ==>
                f.popularity == old(f.popularity) + if f.fileName == fileName then 1 else 0
    {
      if fileName !in cachingMap {
        var newFile := new File(fileName, fileSize, now, 1);
        AgreeAfterAppend(List(), cachingMap, newFile);
        ghost var before := List();
        cachingMap := cachingMap[fileName := newFile];
        AppendToQueue(newFile);
        assert List()[..|before|] == before;
      } else {
        var file := cachingMap[fileName];
        file.popularity := file.popularity + 1;
      }
    }

    /** Go's append: in place while the backing array has room, else into a larger copy. */
    method AppendToQueue(file: File)
      requires count <= cachingList.Length
      modifies this`cachingList, this`count, cachingList
      ensures count <= cachingList.Length && List() == old(List()) + [file]
      ensures cachingList == old(cachingList) || fresh(cachingList)
    {
      if count == cachingList.Length {
        var larger := new File[2 * count + 1](_ => file);
        forall i | 0 <= i < count {
          larger[i] := cachingList[i];
        }
        cachingList := larger;
      }
      cachingList[count] := file;
      count := count + 1;
    }

    /**
     The position of a file.  A name missing from the map gives -1 WITHOUT an error; the
     error is for a name the map has and the queue lacks.
     */
    method GetIndex(fileName: string) returns (index: int, inconsistent: bool)
      requires count <= cachingList.Length
      ensures fileName !in cachingMap ==> index == -1 && !inconsistent
      ensures fileName in cachingMap ==> (inconsistent <==> forall f :: f in List() ==> f.fileName != fileName)
      ensures fileName in cachingMap && !inconsistent ==> 0 <= index < count && cachingList[index].fileName == fileName
    {
      if fileName !in cachingMap {
        return -1, false;
      }
      for i := 0 to count
        invariant forall k :: 0 <= k < i ==> cachingList[k].fileName != fileName
      {
        if cachingList[i].fileName == fileName {
          assert cachingList[i] in List();
          return i, false;
        }
      }
      index, inconsistent := -1, true;
    }

    /**
     Takes a file out of map and queue.  A name that is not in the map yields the index -1,
     and slicing with it panics.
     */
    method RemoveFileFromQueue(fileName: string) returns (panicked: bool, ghost at: nat)
      requires Valid()
      modifies this`count, this`cachingMap, cachingList
      ensures Valid()
      ensures panicked <==> fileName !in old(cachingMap)
      ensures cachingMap == old(cachingMap) - {fileName}
      ensures panicked ==> count == old(count) && cachingList[..] == old(cachingList[..])
      ensures !panicked ==>
                && at < old(count) && old(List())[at].fileName == fileName
                && count == old(count) - 1 && List() == Without(old(List()), at)
                && cachingList[..] == List() + old(cachingList[..])[|List()|..]
    {
      at := 0;
      var index, inconsistent := GetIndex(fileName);
      if fileName in cachingMap {
        assert cachingMap[fileName] in List();
      }
      if index == -1 {
        assert cachingMap == old(cachingMap) - {fileName};
        return true, at;
      }
      AgreeAfterRemoval(List(), cachingMap, index);
      cachingMap := cachingMap - {fileName};
      at := index;
      ShiftDown(index);
      panicked := false;
    }

    /** `append(list[:index], list[index+1:]...)`: the tail moves down, the last slot keeps its old entry. */
    method ShiftDown(index: nat)
      requires index < count <= cachingList.Length
      modifies this`count, cachingList
      ensures count == old(count) - 1 && List() == Without(old(List()), index)
      ensures cachingList[..] == List() + old(cachingList[..])[|List()|..]
    {
      ghost var before := cachingList[..];
      for j := index to count - 1
        invariant count == old(count)
        invariant forall k :: 0 <= k < index ==> cachingList[k] == old(cachingList[k])
        invariant forall k :: index <= k < j ==> cachingList[k] == old(cachingList[k + 1])
        invariant forall k :: j <= k < cachingList.Length ==> cachingList[k] == old(cachingList[k])
      {
        cachingList[j] := cachingList[j + 1];
      }
      ShiftedSlots(before, cachingList[..], index, count - 1);
      count := count - 1;
      assert cachingList[..][..count] == List() && before[..old(count)] == old(List());
    }

    /** Every file of the index has its bytes on disk. */
    ghost predicate IndexOnDisk()
      reads this
    {
      cachingMap.Keys <= disk.Keys
    }

    /**
     Deletes a file from disk and, if that worked, from the index.  A failing unlock leaves
     a file that has been deleted in the index.
     */
    method RemoveFileFromCache(fileName: string, fault: RemovalFault) returns (r: Removal, ghost at: nat)
      requires Valid()
      modifies this`count, this`cachingMap, this`disk, cachingList
      ensures Valid() && (old(IndexOnDisk()) && r != OnlyDeleted ==> IndexOnDisk())
      ensures r == if fileName !in old(disk) || fault == DeleteFails then NotDeleted
                   else if fault == UnlockFails then OnlyDeleted
                   else if fileName in old(cachingMap) then Removed else SliceOutOfBounds
      ensures disk == if r == NotDeleted then old(disk) else old(disk) - {fileName}
      ensures cachingMap == if r == NotDeleted || r == OnlyDeleted then old(cachingMap) else old(cachingMap) - {fileName}
      ensures r != Removed ==> count == old(count) && cachingList[..] == old(cachingList[..])
      ensures r == Removed ==>
                && at < old(count) && old(List())[at].fileName == fileName
                && count == old(count) - 1 && List() == Without(old(List()), at)
                && cachingList[..] == List() + old(cachingList[..])[|List()|..]
    {
      r, at := NotDeleted, 0;
      if fileName in disk && fault != DeleteFails {
        disk := disk - {fileName};
        if fault == UnlockFails {
          r := OnlyDeleted;
        } else {
          var panicked;
          panicked, at := RemoveFileFromQueue(fileName);
          r := if panicked then SliceOutOfBounds else Removed;
        }
      }
    }

    /**
     What both handlers of a deletion do: a file that is cached is removed.  As they ask the
     index first, the removal cannot panic.
     */
    method RemoveIfCached(fileName: string, fault: RemovalFault) returns (r: Option<Removal>)
      requires Valid()
      modifies this`count, this`cachingMap, this`disk, cachingList, cachingMap.Values
      ensures Valid() && r != Some(SliceOutOfBounds)
      ensures r == None <==> fileName !in old(cachingMap)
      ensures fileName in old(cachingMap) ==>
                (r == Some(Removed) <==> fileName in old(disk) && fault == NoFault)
      ensures cachingMap == if r == Some(Removed) then old(cachingMap) - {fileName} else old(cachingMap)
      ensures disk == if r == Some(Removed) || r == Some(OnlyDeleted) then old(disk) - {fileName} else old(disk)
    {
      r := None;
      var isInCache := IsFileInCache(fileName);
      if isInCache {
        var removal, at := RemoveFileFromCache(fileName, fault);
        r := Some(removal);
      }
    }

    /** The deadline of a pass: it cannot delete a file that is not on disk either. */
    ghost function PassDeadline(d: Deadline): Deadline
      reads this
    {
      d.(undeletable := d.undeletable + (cachingMap.Keys - disk.Keys))
    }

    /** An expiry pass over `s`, the queue of an index with these names, has come to `v`. */
    ghost predicate Passing(s: seq<File>, names: set<string>, files: map<string, Bytes>, v: PassView)
      reads this, cachingList
    {
      && Valid() && LostTogether(files, names, disk, cachingMap.Keys)
      && |s| <= cachingList.Length && List() == v.list && cachingList[..|s|] == v.slots
    }

    /** Reads one slot and removes its file if it has expired. */
    method ReadSlot(i: nat, d: Deadline, ghost limit: Deadline, ghost s: seq<File>, ghost names: set<string>,
                    ghost files: map<string, Bytes>, ghost v: PassView) returns (ghost w: PassView)
      requires i < |s| && UniqueNames(s) && (forall j :: 0 <= j < |s| ==> s[j].fileName in names)
      requires |v.list| <= |s| == |v.slots| && From(v.list, s) && v.slots[i] in s
      requires Passing(s, names, files, v) && limit == d.(undeletable := d.undeletable + (names - files.Keys))
      modifies this`count, this`cachingMap, this`disk, cachingList
      ensures Passing(s, names, files, w) && w == SlotStep(v, i, limit)
    {
      w := v;
      var file := cachingList[i];
      ghost var all := cachingList[..];
      assert cachingList[..|s|][i] == file;
      if PastDeadline(file, d) {
        IndexedIffListed(s, v.list, cachingMap, file);
        ghost var files0, index0 := disk, cachingMap.Keys;
        assert file.fileName in disk <==> file.fileName in files && file in v.list;
        var r, at := RemoveFileFromCache(file.fileName, if file.fileName in d.undeletable then DeleteFails else NoFault);
        assert r == Removed || r == NotDeleted;
        if r == Removed {
          OneMoreLost(files, names, files0, index0, file.fileName);
          w := SlotStepRemoves(v, i, limit, at);
          SlotsAfterShift(all, cachingList[..], Without(v.list, at), |s|);
        }
      }
    }

    /** One turn of the loop over the slots. */
    method PassSlot(i: nat, next: nat, d: Deadline, ghost limit: Deadline, ghost s: seq<File>, ghost names: set<string>,
                    ghost files: map<string, Bytes>, ghost v: PassView) returns (ghost w: PassView)
      requires i < |s| && UniqueNames(s) && (forall j :: 0 <= j < |s| ==> s[j].fileName in names)
      requires Passing(s, names, files, v) && limit == d.(undeletable := d.undeletable + (names - files.Keys))
      requires next == i + 1 && v == PassRun(s, limit, i)
      modifies this`count, this`cachingMap, this`disk, cachingList
      ensures Passing(s, names, files, w) && w == PassRun(s, limit, next)
    {
      PassRunShape(s, limit, i, v);
      w := ReadSlot(i, d, limit, s, names, files, v);
      PassRunStep(s, limit, i, next, v, w);
    }

    /** The loop ranges over the slots the queue had at the start, while each removal shifts the entries behind it. */
    method PassOverSlots(d: Deadline, ghost limit: Deadline) returns (ghost v: PassView)
      requires Valid() && limit == PassDeadline(d)
      modifies this`count, this`cachingMap, this`disk, cachingList
      ensures Passing(old(List()), old(cachingMap).Keys, old(disk), v)
      ensures v == PassRun(old(List()), limit, |old(List())|)
    {
      ghost var s, names, files := List(), cachingMap.Keys, disk;
      v := PassView(s, s);
      var n := count;
      var i := 0;
      while i < n
        invariant i <= n
        invariant Passing(s, names, files, v) && v == PassRun(s, limit, i)
      {
        var next := i + 1;
        v := PassSlot(i, next, d, limit, s, names, files, v);
        i := next;
      }
    }

    /**
     One expiry pass.  `d` holds the names whose deletion fails although they are on disk.
     What leaves the index leaves the disk.
     */
    method DeleteExpiredFiles(d: Deadline)
      requires Valid()
      modifies this`count, this`cachingMap, this`disk, cachingList
      ensures Valid() && (old(IndexOnDisk()) ==> IndexOnDisk())
      ensures List() == Pass(old(List()), old(PassDeadline(d)))
      ensures forall f :: f in List() ==> f in old(List())
      ensures forall f :: f in old(List()) && f !in List() ==>
                d.now - f.timestamp > d.timeToDeletion && f.fileName in old(disk) && f.fileName !in d.undeletable
      ensures Younger(List(), d) == Younger(old(List()), d)
      ensures (exists f :: f in old(List()) && d.now - f.timestamp > d.timeToDeletion && f.fileName in old(disk) && f.fileName !in d.undeletable) ==>
                |List()| < |old(List())|
      ensures cachingMap.Keys <= old(cachingMap).Keys && disk == old(disk) - (old(cachingMap).Keys - cachingMap.Keys)
      ensures LostTogether(old(disk), old(cachingMap).Keys, disk, cachingMap.Keys)
    {
      ghost var s, limit := List(), PassDeadline(d);
      ghost var v := PassOverSlots(d, limit);
      PassRunIsPass(s, limit, v);
      PassByAge(s, limit);
      SameYounger(s, d, limit);
      SameYounger(List(), d, limit);
    }

    /** The position of a least popular file among those from `i` on. */
    method LeastPopularFrom(i: nat) returns (least: nat)
      requires i < count <= cachingList.Length
      ensures i <= least < count
      ensures forall j :: i <= j < count ==> cachingList[least].popularity <= cachingList[j].popularity
    {
      least := i;
      for k := i + 1 to count
        invariant i <= least < count
        invariant forall j :: i <= j < k ==> cachingList[least].popularity <= cachingList[j].popularity
      {
        if cachingList[k].popularity < cachingList[least].popularity {
          least := k;
        }
      }
    }

    method SwapFiles(i: nat, j: nat)
      requires Valid() && i < count && j < count
      modifies cachingList
      ensures Valid() && List() == old(List()[i := List()[j]][j := List()[i]])
      ensures multiset(List()) == old(multiset(List()))
    {
      ghost var before := List();
      AgreeAfterSwap(before, cachingMap, i, j);
      cachingList[i], cachingList[j] := cachingList[j], cachingList[i];
      assert List() == before[i := before[j]][j := before[i]];
    }

    /** `sort.Sort(ByPopularity(...))`: some permutation of the queue with rising popularity. */
    method SortByPopularity()
      requires Valid()
      modifies cachingList
      ensures Valid()
      ensures multiset(List()) == old(multiset(List())) && SortedByPopularity(List())
      ensures Size(List()) == old(Size(List()))
    {
      ghost var before := List();
      for i := 0 to count
        invariant Valid() && multiset(List()) == multiset(before) && PrefixSorted(List(), i)
      {
        PlaceNext(i);
      }
      AllSorted(List(), count);
      SizeOfPermutation(before, List());
    }

    /** Puts the next file in its final place. */
    method PlaceNext(i: nat)
      requires Valid() && i < count && PrefixSorted(List(), i)
      modifies cachingList
      ensures Valid() && multiset(List()) == old(multiset(List())) && PrefixSorted(List(), i + 1)
    {
      var least := LeastPopularFrom(i);
      SwapSorts(List(), i, least);
      SwapFiles(i, least);
    }

    /**
     Evicts from the sorted queue; with an empty queue it fails.  As written (`relocks`) the
     first file deleted from the disk makes the call wait for the lock it holds itself, with
     the index untouched, so an eviction that returns has freed nothing.  Otherwise exactly
     the chosen files that can be deleted are gone.
     */
    method ChooseAndDeleteFiles(memoryRequired: int, corrected: bool, relocks: bool, undeletable: set<string>)
      returns (failed: bool, blocked: bool, ghost chosen: seq<File>, ghost deleted: seq<File>)
      requires Valid()
      modifies this`count, this`cachingMap, this`disk, cachingList
      ensures Valid() && cachingMap.Keys <= old(cachingMap).Keys
      ensures failed <==> old(count) == 0
      ensures forall f: File :: old(allocated(f)) ==> f.popularity == old(f.popularity)
      ensures UniqueNames(chosen) && From(chosen, Candidates(old(List()), memoryRequired))
      ensures !corrected ==> chosen == WrittenChoice(old(List()), memoryRequired)
      ensures corrected && Size(old(List())) >= memoryRequired ==> Irredundant(chosen, memoryRequired)
      ensures deleted == Deletable(chosen, old(disk).Keys - undeletable)
      ensures blocked <==> relocks && deleted != []
      ensures relocks ==> List() == old(List()) && cachingMap == old(cachingMap)
      ensures relocks ==> disk == if blocked then old(disk) - {deleted[0].fileName} else old(disk)
      ensures !relocks ==> List() == Remaining(old(List()), FileSet(deleted))
      ensures !relocks ==> Size(old(List())) - Size(List()) == Size(deleted)
      ensures !blocked ==> LostTogether(old(disk), old(cachingMap).Keys, disk, cachingMap.Keys)
    {
      var finalFilesToDelete := ChooseFiles(cachingList[..count], memoryRequired, corrected);
      failed, blocked := count == 0, false;
      chosen := finalFilesToDelete;
      if relocks {
        blocked, deleted := DeleteUnderLock(finalFilesToDelete, undeletable);
      } else {
        deleted := DeleteFiles(finalFilesToDelete, undeletable);
      }
    }

    /** The deletion loop while `cacheMutex` is held: it blocks behind the first deletion from the disk that works. */
    method DeleteUnderLock(files: seq<File>, undeletable: set<string>) returns (blocked: bool, ghost deleted: seq<File>)
      modifies this`disk
      ensures deleted == Deletable(files, old(disk).Keys - undeletable)
      ensures blocked <==> deleted != []
      ensures disk == if blocked then old(disk) - {deleted[0].fileName} else old(disk)
    {
      ghost var names := disk.Keys - undeletable;
      deleted := Deletable(files, names);
      for i := 0 to |files|
        invariant disk == old(disk) && Deletable(files[..i], names) == []
      {
        DeletableNext(files, i, names);
        if files[i].fileName in disk && files[i].fileName !in undeletable {
          FirstDeletable(files, i + 1, names);
          disk := disk - {files[i].fileName};
          return true, deleted;
        }
      }
      assert files[..|files|] == files;
      blocked := false;
    }

    /** The deletion loop. */
    method DeleteFiles(files: seq<File>, undeletable: set<string>) returns (ghost deleted: seq<File>)
      requires Valid() && UniqueNames(files) && From(files, List())
      modifies this`count, this`cachingMap, this`disk, cachingList
      ensures Valid() && LostTogether(old(disk), old(cachingMap).Keys, disk, cachingMap.Keys)
      ensures deleted == Deletable(files, old(disk).Keys - undeletable)
      ensures List() == Remaining(old(List()), FileSet(deleted))
      ensures Size(old(List())) - Size(List()) == Size(deleted)
    {
      ghost var list, names := List(), disk.Keys - undeletable;
      ghost var gone: set<File> := {};
      deleted := [];
      RemainingNone(list);
      for i := 0 to |files|
        invariant Valid() && LostTogether(old(disk), old(cachingMap).Keys, disk, cachingMap.Keys)
        invariant deleted == Deletable(files[..i], names) && gone == FileSet(deleted)
        invariant List() == Remaining(list, gone) && Size(list) - Size(List()) == Size(deleted)
      {
        var file := files[i];
        DeletableNext(files, i, names);
        DeletableMembers(files[..i], names, file);
        ApartFromEarlier(files, i);
        OneMoreFile(deleted, file);
        ghost var files0, index0 := disk, cachingMap.Keys;
        var removed := DeleteFile(file, file.fileName in undeletable, list, gone);
        if removed {
          OneMoreLost(old(disk), old(cachingMap).Keys, files0, index0, file.fileName);
          gone, deleted := gone + {file}, deleted + [file];
        }
      }
      assert files[..|files|] == files;
    }

    /** Deletes one chosen file from what is left of `list`, if that can be done. */
    method DeleteFile(file: File, fails: bool, ghost list: seq<File>, ghost gone: set<File>) returns (removed: bool)
      requires Valid() && UniqueNames(list) && file in list && file !in gone
      requires List() == Remaining(list, gone)
      modifies this`count, this`cachingMap, this`disk, cachingList
      ensures Valid() && file.fileName in old(cachingMap)
      ensures removed <==> file.fileName in old(disk) && !fails
      ensures !removed ==> List() == old(List()) && disk == old(disk) && cachingMap == old(cachingMap)
      ensures removed ==>
                && List() == Remaining(list, gone + {file})
                && disk == old(disk) - {file.fileName} && cachingMap == old(cachingMap) - {file.fileName}
                && Size(List()) == Size(old(List())) - file.fileSize
    {
      RemainingMembers(list, gone, file);
      ghost var before := List();
      var r, at := RemoveFileFromCache(file.fileName, if fails then DeleteFails else NoFault);
      removed := r == Removed;
      if removed {
        assert before[at] == file;
        RemainingOneFewer(list, gone, file, at);
        SizeWithout(before, at);
      }
    }

    /** Sorts the queue and evicts from its front. */
    method SortAndEvict(memoryRequired: int, corrected: bool, relocks: bool, undeletable: set<string>)
      returns (failed: bool, blocked: bool, ghost sorted: seq<File>, ghost chosen: seq<File>, ghost deleted: seq<File>)
      requires Valid()
      modifies this`count, this`cachingMap, this`disk, cachingList
      ensures Valid() && cachingMap.Keys <= old(cachingMap).Keys
      ensures failed <==> old(count) == 0
      ensures multiset(sorted) == multiset(old(List())) && SortedByPopularity(sorted)
      ensures UniqueNames(chosen) && From(chosen, Candidates(sorted, memoryRequired))
      ensures !corrected ==> chosen == WrittenChoice(sorted, memoryRequired)
      ensures corrected && Size(old(List())) >= memoryRequired ==> Irredundant(chosen, memoryRequired)
      ensures deleted == Deletable(chosen, old(disk).Keys - undeletable)
      ensures blocked <==> relocks && deleted != []
      ensures relocks ==> List() == sorted && cachingMap == old(cachingMap)
      ensures relocks ==> disk == if blocked then old(disk) - {deleted[0].fileName} else old(disk)
      ensures !relocks ==> List() == Remaining(sorted, FileSet(deleted))
      ensures !relocks ==> Size(old(List())) - Size(List()) == Size(deleted)
      ensures !blocked ==> LostTogether(old(disk), old(cachingMap).Keys, disk, cachingMap.Keys)
    {
      SortByPopularity();
      sorted := List();
      failed, blocked, chosen, deleted := ChooseAndDeleteFiles(memoryRequired, corrected, relocks, undeletable);
    }

    /**
     Makes room for a file: expired files go first, then, if the free memory measured after
     that is too small, the least popular ones.
     */
    method FreeSpaceForInsert(fileSize: int, freeMemory: int, d: Deadline, corrected: bool, relocks: bool)
      returns (failed: bool, blocked: bool, memoryRequired: int,
               ghost unexpired: seq<File>, ghost sorted: seq<File>, ghost chosen: seq<File>, ghost deleted: seq<File>)
      requires Valid()
      modifies this`count, this`cachingMap, this`disk, cachingList
      ensures Valid() && cachingMap.Keys <= old(cachingMap).Keys
      ensures !blocked ==> LostTogether(old(disk), old(cachingMap).Keys, disk, cachingMap.Keys)
      ensures unexpired == Pass(old(List()), old(PassDeadline(d)))
      ensures memoryRequired == fileSize - freeMemory
      ensures failed <==> memoryRequired > 0 && unexpired == []
      ensures memoryRequired <= 0 ==> List() == unexpired && deleted == [] && !blocked
      ensures memoryRequired > 0 ==> multiset(sorted) == multiset(unexpired) && SortedByPopularity(sorted)
      ensures memoryRequired > 0 ==> From(chosen, Candidates(sorted, memoryRequired))
      ensures memoryRequired > 0 && !corrected ==> chosen == WrittenChoice(sorted, memoryRequired)
      ensures memoryRequired > 0 && corrected && Size(unexpired) >= memoryRequired ==>
                Size(chosen) >= memoryRequired && forall f :: f in chosen ==> Size(chosen) - f.fileSize < memoryRequired
      ensures memoryRequired > 0 ==> deleted == Deletable(chosen, old(disk).Keys - d.undeletable)
      ensures blocked <==> relocks && deleted != []
      ensures memoryRequired > 0 && relocks ==> List() == sorted
      ensures memoryRequired > 0 && !relocks ==> List() == Remaining(sorted, FileSet(deleted))
      ensures memoryRequired > 0 && !relocks ==> Size(unexpired) - Size(List()) == Size(deleted)
      ensures memoryRequired > 0 && corrected && !relocks && Size(unexpired) >= memoryRequired &&
              old(IndexOnDisk()) && d.undeletable !! old(cachingMap).Keys ==>
                deleted == chosen && Size(unexpired) - Size(List()) >= memoryRequired
    {
      DeleteExpiredFiles(d);
      failed, blocked, memoryRequired := false, false, fileSize - freeMemory;
      unexpired, sorted, chosen, deleted := List(), [], [], [];
      if memoryRequired > 0 {
        ghost var files, index := disk, cachingMap;
        failed, blocked, sorted, chosen, deleted := SortAndEvict(memoryRequired, corrected, relocks, d.undeletable);
        ChosenAreIndexed(unexpired, index, sorted, memoryRequired, chosen);
        SameDeletable(chosen, files.Keys - d.undeletable, old(disk).Keys - d.undeletable);
        if old(IndexOnDisk()) && d.undeletable !! old(cachingMap).Keys {
          AllDeletable(chosen, old(disk).Keys - d.undeletable);
        }
        LostTwice(old(disk), old(cachingMap).Keys, files, index.Keys, disk, cachingMap.Keys);
      }
    }

    /**
     Writes a stream of messages to a local file.  `messages` is everything the channel
     delivers until it is closed, unless the writer gives up earlier.
     */
    method WriteChunksInCache(fileName: string, messages: seq<Message>, faults: WriteFaults) returns (err: Option<Error>)
      modifies this`disk
      ensures err == None <==> WriteSucceeds(messages, faults)
      ensures err == None ==> disk == old(disk)[fileName := Concat(Bodies(messages))]
      ensures err.Some? ==>
                disk == if messages == [] || faults.createFails then old(disk)
                        else if faults.lockFails then old(disk)[fileName := []]
                        else old(disk) - {fileName}
    {
      var fileCreated := false;
      ghost var before := disk;
      ghost var written: Bytes := [];
      for i := 0 to |messages|
        invariant fileCreated <==> i > 0
        invariant i > 0 ==> !faults.createFails && !faults.lockFails
        invariant forall k :: 0 <= k < i ==> messages[k].err == None
        invariant faults.failingWrite.Some? ==> faults.failingWrite.value >= i
        invariant written == Concat(Bodies(messages[..i]))
        invariant disk == if fileCreated then before[fileName := written] else before
      {
        var message := messages[i];
        if !fileCreated {
          if faults.createFails {
            return Some("create");
          }
          disk := disk[fileName := []];
          fileCreated := true;
          if faults.lockFails {
            return Some("lock");
          }
        }
        if message.err.Some? {
          disk := disk - {fileName};
          return Some(message.err.value);
        }
        if faults.failingWrite == Some(i) {
          disk := disk - {fileName};
          return Some("write");
        }
        WrittenNext(messages, i, written);
        written := written + message.body;
        disk := disk[fileName := disk[fileName] + message.body];
      }
      assert messages[..|messages|] == messages;
      err := if fileCreated then None else Some("nothing to save");
    }

    /**
     Inserts a file fed by a stream.  It enters the index exactly when the call does not
     block, there is room or something to evict, and the whole stream was written; and then
     its bytes on disk are the concatenation of all chunks.
     */
    method InsertFileInCache(fileName: string, fileSize: nat, messages: seq<Message>, faults: WriteFaults,
                             freeMemory: int, d: Deadline, corrected: bool, relocks: bool)
      returns (blocked: bool, required: int, ghost sorted: seq<File>, ghost deleted: seq<File>)
      requires Valid()
      modifies this, cachingList
      ensures Valid() && (!blocked && old(IndexOnDisk()) ==> IndexOnDisk())
      ensures fileName in old(cachingMap) ==> cachingMap == old(cachingMap) && disk == old(disk) && !blocked
      ensures fileName !in old(cachingMap) ==>
                && required == fileSize - freeMemory && (blocked <==> relocks && required > 0 && deleted != [])
                && (required > 0 ==>
                      && multiset(sorted) == multiset(Pass(old(List()), old(PassDeadline(d)))) && SortedByPopularity(sorted)
                      && WrittenDeletes(sorted, required, corrected, old(disk).Keys - d.undeletable, deleted))
                && (fileName in cachingMap <==>
                      && !blocked && (required <= 0 || Pass(old(List()), old(PassDeadline(d))) != [])
                      && WriteSucceeds(messages, faults))
                && (fileName in cachingMap ==>
                      fileName in disk && disk[fileName] == Concat(Bodies(messages)) && NoErrors(messages))
      ensures cachingMap.Keys <= old(cachingMap).Keys + {fileName}
    {
      blocked, required, sorted, deleted := false, 0, [], [];
      if fileName !in cachingMap {
        blocked, required, sorted, deleted := InsertNewFile(fileName, fileSize, messages, faults, freeMemory, d, corrected, relocks);
      }
    }

    /** The part behind the test for a file that is cached already. */
    method InsertNewFile(fileName: string, fileSize: nat, messages: seq<Message>, faults: WriteFaults,
                         freeMemory: int, d: Deadline, corrected: bool, relocks: bool)
      returns (blocked: bool, required: int, ghost sorted: seq<File>, ghost deleted: seq<File>)
      requires Valid() && fileName !in cachingMap
      modifies this, cachingList
      ensures required == fileSize - freeMemory
      ensures Valid() && (!blocked && old(IndexOnDisk()) ==> IndexOnDisk())
      ensures blocked <==> relocks && required > 0 && deleted != []
      ensures required > 0 ==> multiset(sorted) == multiset(Pass(old(List()), old(PassDeadline(d)))) && SortedByPopularity(sorted)
      ensures required > 0 ==> WrittenDeletes(sorted, required, corrected, old(disk).Keys - d.undeletable, deleted)
      ensures fileName in cachingMap <==>
                && !blocked && (required <= 0 || Pass(old(List()), old(PassDeadline(d))) != [])
                && WriteSucceeds(messages, faults)
      ensures fileName in cachingMap ==> fileName in disk && disk[fileName] == Concat(Bodies(messages))
      ensures cachingMap.Keys <= old(cachingMap).Keys + {fileName}
    {
      var failed;
      ghost var unexpired, chosen;
      failed, blocked, required, unexpired, sorted, chosen, deleted := FreeSpaceForInsert(fileSize, freeMemory, d, corrected, relocks);
      if !failed && !blocked {
        var written := WriteAndIndex(fileName, fileSize, messages, faults, d.now);
      }
    }

    /** Writes a stream and, if all of it was written, puts the file in the index. */
    method WriteAndIndex(fileName: string, fileSize: nat, messages: seq<Message>, faults: WriteFaults, now: Time) returns (written: bool)
      requires Valid() && fileName !in cachingMap
      modifies this`cachingList, this`count, this`cachingMap, this`disk, cachingList
      ensures Valid() && (old(IndexOnDisk()) ==> IndexOnDisk())
      ensures forall f: File :: old(allocated(f)) ==> f.popularity == old(f.popularity)
      ensures written <==> WriteSucceeds(messages, faults)
      ensures cachingMap.Keys == old(cachingMap).Keys + if written then {fileName} else {}
      ensures written ==> fileName in disk && disk[fileName] == Concat(Bodies(messages))
    {
      var err := WriteChunksInCache(fileName, messages, faults);
      written := err == None;
      if written {
        InsertFileInQueue(fileName, fileSize, now);
      }
    }
  }

  /** No file that is chosen is more popular than one behind the candidates. */
  lemma ChosenAreLeastPopular(sorted: seq<File>, required: int, chosen: seq<File>, f: File, g: File)
    requires SortedByPopularity(sorted) && From(chosen, Candidates(sorted, required))
    requires f in chosen && g in sorted && g !in Candidates(sorted, required)
    ensures f.popularity <= g.popularity
  {
    var k :| 0 <= k < |chosen| && chosen[k] == f;
    var n := |Candidates(sorted, required)|;
    assert Candidates(sorted, required) == sorted[..n];
    assert sorted == sorted[..n] + sorted[n..];
    var i :| 0 <= i < n && sorted[..n][i] == f;
    var j :| 0 <= j < |sorted| - n && sorted[n..][j] == g;
    assert sorted[i] == f && sorted[n + j] == g;
  }

  /** What an eviction chooses is in the index. */
  lemma ChosenAreIndexed(list: seq<File>, index: map<string, File>, sorted: seq<File>, required: int, chosen: seq<File>)
    requires Agree(list, index) && multiset(sorted) == multiset(list) && From(chosen, Candidates(sorted, required))
    ensures forall k :: 0 <= k < |chosen| ==> chosen[k].fileName in index
  {
    forall k | 0 <= k < |chosen|
      ensures chosen[k].fileName in index
    {
      assert chosen[k] in sorted;
      assert chosen[k] in multiset(sorted);
      assert chosen[k] in list;
    }
  }

  lemma {:induction false} SizeOfPermutation(a: seq<File>, b: seq<File>)
    requires multiset(a) == multiset(b)
    ensures Size(a) == Size(b) && |a| == |b|
    decreases |a|
  {
    assert |multiset(a)| == |a| && |multiset(b)| == |b|;
    if a != [] {
      var n := |a| - 1;
      assert a == a[..n] + [a[n]];
      assert a[n] in multiset(b);
      var k :| 0 <= k < |b| && b[k] == a[n];
      PickOne(b, k);
      SizeOfPermutation(a[..n], Without(b, k));
      SizeWithout(b, k);
    }
  }

  lemma PickOne(b: seq<File>, k: nat)
    requires k < |b|
    ensures multiset(Without(b, k)) == multiset(b) - multiset{b[k]}
  {
    assert b == b[..k] + [b[k]] + b[k + 1..];
  }
}
