/**
 Which files an eviction deletes.  The queue is sorted by rising popularity; candidates
 are its shortest prefix that is large enough, and the choice then spares some of them,
 most popular first.  `corrected` selects the intended sparing loop, which also looks at
 the first candidate and gives up the memory of each file it spares.
 */
module CacheEviction {
  import opened CachedFiles

  /** The memory a list of files takes. */
  function Size(s: seq<File>): nat {
    if s == [] then 0 else Size(s[..|s| - 1]) + s[|s| - 1].fileSize
  }

  /** The first length from `k` on whose files reach the requirement, or that of the whole queue. */
  function FirstEnough(list: seq<File>, required: int, k: nat): (r: nat)
    requires k <= |list|
    ensures k <= r <= |list|
    decreases |list| - k
  {
    if k == |list| || Size(list[..k]) >= required then k else FirstEnough(list, required, k + 1)
  }

  /** The candidates: the shortest prefix that reaches the requirement, but at least one file. */
  function Candidates(list: seq<File>, required: int): seq<File> {
    if list == [] then [] else list[..FirstEnough(list, required, 1)]
  }

  lemma {:induction false} FirstEnoughIs(list: seq<File>, required: int, k: nat, r: nat, j: nat)
    requires k <= j <= |list| && r == FirstEnough(list, required, k)
    ensures j < r ==> Size(list[..j]) < required
    ensures j == r ==> r == |list| || Size(list[..r]) >= required
    decreases |list| - k
  {
    if k < j && k < r {
      FirstEnoughIs(list, required, k + 1, r, j);
    }
  }

  /** The candidates are a prefix, the whole queue if that is not large enough, and no shorter prefix is. */
  lemma CandidatesArePrefix(list: seq<File>, required: int, j: nat)
    requires 0 < j <= |list|
    ensures [] < Candidates(list, required) <= list
    ensures j < |Candidates(list, required)| ==> Size(list[..j]) < required
    ensures Size(Candidates(list, required)) >= required || Candidates(list, required) == list
  {
    var r := FirstEnough(list, required, 1);
    assert list[..|list|] == list;
    FirstEnoughIs(list, required, 1, r, j);
    FirstEnoughIs(list, required, 1, r, r);
  }

  /** The candidates reach the requirement if the queue does, and no shorter prefix reaches it. */
  lemma CandidatesAreShortest(list: seq<File>, required: int, j: nat)
    requires Size(list) >= required && 0 < j <= |list|
    ensures Size(Candidates(list, required)) >= required
    ensures j < |Candidates(list, required)| ==> Size(list[..j]) < required
  {
    assert list[..|list|] == list;
    var r := FirstEnough(list, required, 1);
    FirstEnoughIs(list, required, 1, r, j);
    FirstEnoughIs(list, required, 1, r, r);
  }

  method SelectLeastPopular(list: seq<File>, memoryRequired: int) returns (candidates: seq<File>, memoryCount: nat)
    ensures candidates == Candidates(list, memoryRequired) && memoryCount == Size(candidates)
  {
    candidates, memoryCount := [], 0;
    var k := 0;
    while k < |list|
      invariant k <= |list| && candidates == list[..k] && memoryCount == Size(candidates)
      invariant k > 0 ==> memoryCount < memoryRequired
      invariant k > 0 ==> FirstEnough(list, memoryRequired, 1) == FirstEnough(list, memoryRequired, k)
    {
      assert list[..k + 1][..k] == list[..k];
      memoryCount := memoryCount + list[k].fileSize;
      candidates := candidates + [list[k]];
      k := k + 1;
      if memoryCount >= memoryRequired {
        break;
      }
    }
  }

  // ----- As written: the first candidate is never looked at, the count never lowered -----

  /** Deleted: every candidate but the first whose own size exceeds the surplus. */
  function ChosenAsWritten(candidates: seq<File>, surplus: int): seq<File>
    decreases |candidates|
  {
    if |candidates| <= 1 then []
    else
      var last := candidates[|candidates| - 1];
      (if last.fileSize > surplus then [last] else []) + ChosenAsWritten(candidates[..|candidates| - 1], surplus)
  }

  /** What the code deletes from a sorted queue. */
  function WrittenChoice(list: seq<File>, required: int): seq<File> {
    var candidates := Candidates(list, required);
    ChosenAsWritten(candidates, Size(candidates) - required)
  }

  /** Spared: the first candidate, and every other one that alone fits in the surplus. */
  function SparedSize(candidates: seq<File>, surplus: int): nat
    decreases |candidates|
  {
    if candidates == [] then 0
    else if |candidates| == 1 then candidates[0].fileSize
    else
      var last := candidates[|candidates| - 1];
      SparedSize(candidates[..|candidates| - 1], surplus) + if last.fileSize > surplus then 0 else last.fileSize
  }

  lemma {:induction false} SizeOfJoin(s: seq<File>, t: seq<File>)
    ensures Size(s + t) == Size(s) + Size(t)
  {
    if t == [] {
      assert s + t == s;
    } else {
      assert (s + t)[..|s + t| - 1] == s + t[..|t| - 1];
      SizeOfJoin(s, t[..|t| - 1]);
    }
  }

  lemma {:induction false} ChosenPlusSpared(candidates: seq<File>, surplus: int)
    ensures Size(ChosenAsWritten(candidates, surplus)) + SparedSize(candidates, surplus) == Size(candidates)
    decreases |candidates|
  {
    if |candidates| == 1 {
      assert candidates[..0] == [];
    } else if |candidates| > 1 {
      var last := candidates[|candidates| - 1];
      ChosenPlusSpared(candidates[..|candidates| - 1], surplus);
      SizeOfJoin(if last.fileSize > surplus then [last] else [], ChosenAsWritten(candidates[..|candidates| - 1], surplus));
      assert [last][..0] == [];
      assert Size([last]) == last.fileSize;
    }
  }

  /** Of two or more candidates the last one is always deleted: without it they were not enough. */
  lemma LastCandidateIsChosen(list: seq<File>, required: int)
    requires Size(list) >= required && |Candidates(list, required)| >= 2
    ensures var candidates := Candidates(list, required); var n := |candidates| - 1;
            && candidates[n].fileSize > Size(candidates) - required
            && WrittenChoice(list, required) ==
               [candidates[n]] + ChosenAsWritten(candidates[..n], Size(candidates) - required)
  {
    var candidates := Candidates(list, required);
    var n := |candidates| - 1;
    CandidatesAreShortest(list, required, n);
    assert candidates[..n] == list[..n];
  }

  /** As written, nothing is chosen exactly when there is at most one candidate. */
  lemma WrittenChoiceEmptyIff(list: seq<File>, required: int)
    ensures WrittenChoice(list, required) == [] <==> |Candidates(list, required)| <= 1
  {
    var candidates := Candidates(list, required);
    if |candidates| >= 2 {
      var r, n := |candidates|, |candidates| - 1;
      FirstEnoughIs(list, required, 1, r, n);
      FirstEnoughIs(list, required, 1, r, r);
      assert candidates[..n] == list[..n];
    }
  }

  /**
   As written, an eviction from a queue that is large enough frees what is required exactly
   when nothing is required, or there are two or more candidates and those that are spared,
   the first one and every other one no larger than the surplus, together fit in the surplus.
   */
  lemma WrittenFreesEnoughIff(list: seq<File>, required: int)
    requires Size(list) >= required
    ensures var candidates := Candidates(list, required);
            var surplus := Size(candidates) - required;
            Size(WrittenChoice(list, required)) >= required <==>
              required <= 0 ||
              (|candidates| >= 2 && SparedSize(candidates[..|candidates| - 1], surplus) <= surplus)
  {
    var candidates := Candidates(list, required);
    var surplus := Size(candidates) - required;
    ChosenPlusSpared(candidates, surplus);
    if |candidates| >= 2 {
      LastCandidateIsChosen(list, required);
    }
  }

  /** A first candidate larger than the surplus is spared all the same, so too little is freed. */
  lemma LargeFirstCandidateFails(list: seq<File>, required: int)
    requires 0 < required <= Size(list)
    requires var candidates := Candidates(list, required); candidates[0].fileSize > Size(candidates) - required
    ensures Size(WrittenChoice(list, required)) < required
  {
    var candidates := Candidates(list, required);
    ChosenPlusSpared(candidates, Size(candidates) - required);
    SparesTheFirst(candidates, Size(candidates) - required);
  }

  lemma {:induction false} SparesTheFirst(candidates: seq<File>, surplus: int)
    requires candidates != []
    ensures SparedSize(candidates, surplus) >= candidates[0].fileSize
    decreases |candidates|
  {
    if |candidates| > 1 {
      SparesTheFirst(candidates[..|candidates| - 1], surplus);
    }
  }

  /** One file large enough on its own: it is the only candidate, and nothing is deleted. */
  lemma AsWrittenSparesASingleCandidate(f: File, required: int)
    requires 0 < required <= f.fileSize
    ensures WrittenChoice([f], required) == [] && Size([f]) >= required
  {
    assert [f][..0] == [];
    assert Size([f]) == f.fileSize;
  }

  lemma UniqueNamesJoin(f: File, s: seq<File>)
    requires UniqueNames(s) && forall k :: 0 <= k < |s| ==> s[k].fileName != f.fileName
    ensures UniqueNames([f] + s) && UniqueNames(s + [f])
  {
  }

  lemma {:induction false} ChosenIsCandidate(candidates: seq<File>, surplus: int, f: File)
    requires f in ChosenAsWritten(candidates, surplus)
    ensures f in candidates && f.fileSize > surplus
    decreases |candidates|
  {
    if |candidates| > 1 {
      var n := |candidates| - 1;
      if f != candidates[n] {
        ChosenIsCandidate(candidates[..n], surplus, f);
      } else if candidates[n].fileSize <= surplus {
        ChosenIsCandidate(candidates[..n], surplus, f);
      }
    }
  }

  lemma ChosenAreCandidates(candidates: seq<File>, surplus: int)
    ensures From(ChosenAsWritten(candidates, surplus), candidates)
  {
    var chosen := ChosenAsWritten(candidates, surplus);
    forall k | 0 <= k < |chosen|
      ensures chosen[k] in candidates
    {
      ChosenIsCandidate(candidates, surplus, chosen[k]);
    }
  }

  lemma {:induction false} ChosenAreDistinct(candidates: seq<File>, surplus: int)
    requires UniqueNames(candidates)
    ensures UniqueNames(ChosenAsWritten(candidates, surplus))
    decreases |candidates|
  {
    if |candidates| > 1 {
      var front := candidates[..|candidates| - 1];
      ChosenAreDistinct(front, surplus);
      ChosenAreCandidates(front, surplus);
      UniqueNamesJoin(candidates[|candidates| - 1], ChosenAsWritten(front, surplus));
    }
  }

  /** Every later candidate larger than the surplus is chosen; the first never is. */
  lemma {:induction false} ChosenExactly(candidates: seq<File>, surplus: int, k: nat)
    requires UniqueNames(candidates) && k < |candidates|
    ensures candidates[k] in ChosenAsWritten(candidates, surplus) <==> k > 0 && candidates[k].fileSize > surplus
    decreases |candidates|
  {
    if |candidates| > 1 {
      var n := |candidates| - 1;
      var front := candidates[..n];
      if k < n {
        ChosenExactly(front, surplus, k);
        assert candidates[k] == front[k];
      } else {
        ChosenAreCandidates(front, surplus);
      }
    }
  }

  lemma ChosenStep(candidates: seq<File>, index: nat, surplus: int, rest: seq<File>) returns (next: seq<File>)
    requires 0 < index < |candidates| && rest == ChosenAsWritten(candidates[..index + 1], surplus)
    ensures next == ChosenAsWritten(candidates[..index], surplus)
    ensures rest == if candidates[index].fileSize > surplus then [candidates[index]] + next else next
  {
    assert candidates[..index + 1][..index] == candidates[..index];
    next := ChosenAsWritten(candidates[..index], surplus);
  }

  /** The sparing loop as written, from the most popular candidate down to the second. */
  method SpareAsWritten(candidates: seq<File>, memoryCount: nat, memoryRequired: int) returns (finalFilesToDelete: seq<File>)
    requires memoryCount == Size(candidates)
    ensures finalFilesToDelete == ChosenAsWritten(candidates, memoryCount - memoryRequired)
  {
    var index := |candidates| - 1;
    finalFilesToDelete := [];
    ghost var surplus := memoryCount - memoryRequired;
    ghost var all := ChosenAsWritten(candidates, surplus);
    ghost var rest, front := all, candidates;
    while index > 0
      invariant -1 <= index < |candidates| && front == candidates[..index + 1]
      invariant rest == ChosenAsWritten(front, surplus)
      invariant finalFilesToDelete + rest == all
      decreases index
    {
      var file := candidates[index];
      rest := ChosenStep(candidates, index, surplus, rest);
      front := candidates[..index];
      if memoryCount - file.fileSize < memoryRequired {
        assert file.fileSize > surplus;
        finalFilesToDelete := finalFilesToDelete + [file];
      }
      index := index - 1;
    }
  }

  // ----- The intended choice -----

  /** Enough is freed, and no chosen file is superfluous. */
  ghost predicate Irredundant(chosen: seq<File>, required: int) {
    && Size(chosen) >= required
    && forall f :: f in chosen ==> Size(chosen) - f.fileSize < required
  }

  lemma OneMoreFile(files: seq<File>, file: File)
    ensures FileSet(files + [file]) == FileSet(files) + {file}
    ensures Size(files + [file]) == Size(files) + file.fileSize
  {
    assert (files + [file])[..|files|] == files;
  }

  lemma SplitAt(files: seq<File>, i: nat)
    requires i < |files|
    ensures files[..i + 1] == files[..i] + [files[i]] && files[i..] == [files[i]] + files[i + 1..]
    ensures Size(files[..i + 1]) == Size(files[..i]) + files[i].fileSize
  {
    OneMoreFile(files[..i], files[i]);
    assert files[..i + 1] == files[..i] + [files[i]];
  }

  lemma ApartFromLater(files: seq<File>, i: nat, chosen: seq<File>)
    requires i < |files| && UniqueNames(files) && UniqueNames(chosen) && From(chosen, files[i + 1..])
    ensures UniqueNames(chosen + [files[i]]) && From(chosen + [files[i]], files[i..]) && From(chosen, files[i..])
  {
    SplitAt(files, i);
    forall k | 0 <= k < |chosen|
      ensures chosen[k].fileName != files[i].fileName && chosen[k] in files[i..]
    {
      var j :| 0 <= j < |files| - i - 1 && files[i + 1..][j] == chosen[k];
      assert files[i + 1 + j] == chosen[k];
    }
    UniqueNamesJoin(files[i], chosen);
  }

  lemma SizesOfStep(candidates: seq<File>, index: nat, front: seq<File>, chosen: seq<File>)
    requires index < |candidates| && front == candidates[..index + 1]
    ensures Size(candidates[..index]) == Size(front) - candidates[index].fileSize
    ensures Size(chosen + [candidates[index]]) == Size(chosen) + candidates[index].fileSize
  {
    SplitAt(candidates, index);
    OneMoreFile(chosen, candidates[index]);
  }

  /** The corrected loop: down to the first candidate, lowering the count for each file spared. */
  method SpareCorrected(candidates: seq<File>, memoryCount: nat, memoryRequired: int) returns (finalFilesToDelete: seq<File>)
    requires UniqueNames(candidates) && memoryCount == Size(candidates)
    ensures UniqueNames(finalFilesToDelete)
    ensures From(finalFilesToDelete, candidates)
    ensures memoryCount >= memoryRequired ==> Irredundant(finalFilesToDelete, memoryRequired)
    ensures memoryCount < memoryRequired ==> From(candidates, finalFilesToDelete)
  {
    var remaining := memoryCount;
    var index := |candidates|;
    finalFilesToDelete := [];
    ghost var front, back: seq<File>, chosenSize: nat, spare: nat := candidates, [], 0, memoryCount;
    while index > 0
      invariant 0 <= index <= |candidates| && front == candidates[..index] && back == candidates[index..]
      invariant UniqueNames(finalFilesToDelete) && From(finalFilesToDelete, back)
      invariant spare == Size(front) && chosenSize == Size(finalFilesToDelete) && remaining == spare + chosenSize
      invariant memoryCount >= memoryRequired ==> remaining >= memoryRequired
      invariant memoryCount < memoryRequired ==> remaining < memoryRequired && From(back, finalFilesToDelete)
      invariant forall f :: f in finalFilesToDelete ==> remaining - f.fileSize < memoryRequired
    {
      index := index - 1;
      var file := candidates[index];
      ApartFromLater(candidates, index, finalFilesToDelete);
      SizesOfStep(candidates, index, front, finalFilesToDelete);
      OneMoreBehind(candidates, index, back, finalFilesToDelete);
      front, back, spare := candidates[..index], candidates[index..], spare - file.fileSize;
      if remaining - file.fileSize < memoryRequired {
        finalFilesToDelete := finalFilesToDelete + [file];
        chosenSize := chosenSize + file.fileSize;
      } else {
        remaining := remaining - file.fileSize;
      }
    }
  }

  lemma OneMoreBehind(files: seq<File>, index: nat, back: seq<File>, chosen: seq<File>)
    requires index < |files| && back == files[index + 1..]
    ensures From(back, chosen) ==> From(files[index..], chosen + [files[index]])
  {
    assert files[index..] == [files[index]] + back;
    if From(back, chosen) {
      forall k | 0 <= k < |files| - index
        ensures files[index..][k] in chosen + [files[index]]
      {
        assert k > 0 ==> files[index..][k] == back[k - 1];
      }
    }
  }

  /** The whole choice over the sorted queue. */
  method ChooseFiles(list: seq<File>, memoryRequired: int, corrected: bool) returns (chosen: seq<File>)
    requires UniqueNames(list)
    ensures UniqueNames(chosen) && From(chosen, list)
    ensures list == [] ==> chosen == []
    ensures !corrected ==> chosen == WrittenChoice(list, memoryRequired)
    ensures From(chosen, Candidates(list, memoryRequired))
    ensures corrected && Size(list) >= memoryRequired ==> Irredundant(chosen, memoryRequired)
    ensures corrected && Size(list) >= memoryRequired ==>
              Size(chosen) >= memoryRequired && forall f :: f in chosen ==> Size(chosen) - f.fileSize < memoryRequired
  {
    var candidates, memoryCount := SelectLeastPopular(list, memoryRequired);
    assert forall k :: 0 <= k < |candidates| ==> candidates[k] == list[k];
    if corrected {
      chosen := SpareCorrected(candidates, memoryCount, memoryRequired);
      if Size(list) >= memoryRequired && list != [] {
        CandidatesAreShortest(list, memoryRequired, 1);
      }
    } else {
      chosen := SpareAsWritten(candidates, memoryCount, memoryRequired);
      ChosenAreDistinct(candidates, Size(candidates) - memoryRequired);
      ChosenAreCandidates(candidates, Size(candidates) - memoryRequired);
    }
    assert chosen != [] ==> chosen[0] in candidates;
    FromPrefix(chosen, list, |candidates|);
  }

  lemma FromPrefix(s: seq<File>, list: seq<File>, k: nat)
    requires k <= |list| && From(s, list[..k])
    ensures From(s, list)
  {
  }

  // ----- Deleting the chosen files -----

  /** Those of the files whose deletion from the disk succeeds. */
  function Deletable(files: seq<File>, names: set<string>): seq<File> {
    if files == [] then []
    else
      var n := |files| - 1;
      Deletable(files[..n], names) + if files[n].fileName in names then [files[n]] else []
  }

  lemma DeletableNext(files: seq<File>, i: nat, names: set<string>)
    requires i < |files|
    ensures Deletable(files[..i + 1], names) ==
            Deletable(files[..i], names) + if files[i].fileName in names then [files[i]] else []
  {
    assert files[..i + 1][..i] == files[..i];
  }

  lemma {:induction false} DeletableMembers(files: seq<File>, names: set<string>, f: File)
    ensures f in Deletable(files, names) <==> f in files && f.fileName in names
  {
    if files != [] {
      var n := |files| - 1;
      DeletableMembers(files[..n], names, f);
      assert files == files[..n] + [files[n]];
    }
  }

  /** When every name can be deleted, so can every file. */
  lemma {:induction false} AllDeletable(files: seq<File>, names: set<string>)
    requires forall k :: 0 <= k < |files| ==> files[k].fileName in names
    ensures Deletable(files, names) == files
  {
    if files != [] {
      AllDeletable(files[..|files| - 1], names);
    }
  }

  /** The first deletable file stays the first one, however many follow. */
  lemma {:induction false} FirstDeletable(files: seq<File>, i: nat, names: set<string>)
    requires i <= |files| && Deletable(files[..i], names) != []
    ensures Deletable(files, names) != [] && Deletable(files, names)[0] == Deletable(files[..i], names)[0]
  {
    if i < |files| {
      assert files[..|files| - 1][..i] == files[..i];
      FirstDeletable(files[..|files| - 1], i, names);
    } else {
      assert files[..i] == files;
    }
  }

  lemma ApartFromEarlier(files: seq<File>, i: nat)
    requires UniqueNames(files) && i < |files|
    ensures files[i] !in files[..i]
  {
  }

  lemma {:induction false} SameDeletable(files: seq<File>, names: set<string>, others: set<string>)
    requires forall k :: 0 <= k < |files| ==> (files[k].fileName in names <==> files[k].fileName in others)
    ensures Deletable(files, names) == Deletable(files, others)
  {
    if files != [] {
      SameDeletable(files[..|files| - 1], names, others);
    }
  }

  function FileSet(s: seq<File>): set<File> {
    set f | f in s
  }

  /** What is left of a queue without the files in `gone`, in order. */
  function Remaining(list: seq<File>, gone: set<File>): seq<File> {
    if list == [] then []
    else if list[0] in gone then Remaining(list[1..], gone)
    else [list[0]] + Remaining(list[1..], gone)
  }

  lemma {:induction false} RemainingMembers(list: seq<File>, gone: set<File>, f: File)
    ensures f in Remaining(list, gone) <==> f in list && f !in gone
  {
    if list != [] {
      RemainingMembers(list[1..], gone, f);
      assert list == [list[0]] + list[1..];
    }
  }

  lemma {:induction false} RemainingSame(list: seq<File>, gone: set<File>, f: File)
    requires f !in list
    ensures Remaining(list, gone + {f}) == Remaining(list, gone)
  {
    if list != [] {
      assert list == [list[0]] + list[1..];
      RemainingSame(list[1..], gone, f);
    }
  }

  lemma UniqueTail(list: seq<File>)
    requires list != [] && UniqueNames(list)
    ensures UniqueNames(list[1..]) && list[0] !in list[1..]
  {
    assert forall k :: 0 <= k < |list[1..]| ==> list[1..][k] == list[k + 1];
  }

  /** One more file gone is one entry less. */
  lemma {:induction false} RemainingOneFewer(list: seq<File>, gone: set<File>, f: File, at: nat)
    requires UniqueNames(list) && at < |Remaining(list, gone)| && Remaining(list, gone)[at] == f
    ensures Remaining(list, gone + {f}) == Without(Remaining(list, gone), at)
  {
    var rest := Remaining(list, gone);
    if list != [] {
      var head, tail := list[0], list[1..];
      UniqueTail(list);
      RemainingMembers(list, gone, f);
      RemainingMembers(tail, gone, head);
      if head == f {
        assert at == 0;
        RemainingSame(tail, gone, f);
      } else if head in gone {
        RemainingOneFewer(tail, gone, f, at);
      } else {
        RemainingOneFewer(tail, gone, f, at - 1);
        WithoutBehind(head, Remaining(tail, gone), at - 1);
      }
    }
  }

  lemma WithoutBehind(f: File, s: seq<File>, i: nat)
    requires i < |s|
    ensures Without([f] + s, i + 1) == [f] + Without(s, i)
  {
  }

  lemma RemainingNone(list: seq<File>)
    ensures Remaining(list, {}) == list
  {
    if list != [] {
      RemainingNone(list[1..]);
    }
  }

  lemma {:induction false} SizeWithout(list: seq<File>, at: nat)
    requires at < |list|
    ensures Size(Without(list, at)) == Size(list) - list[at].fileSize
  {
    var n := |list| - 1;
    if at < n {
      SizeWithout(list[..n], at);
      assert Without(list, at)[..n - 1] == Without(list[..n], at);
    } else {
      assert Without(list, at) == list[..n];
    }
  }
}
