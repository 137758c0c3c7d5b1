/**
 What one expiry pass leaves of the queue.  The pass ranges over a slice that its own
 removals shift: after removing an entry it never looks at the one that moved into its
 place, except that the last entry stays visible in the slots left behind.
 */
module CacheExpiry {
  import opened EdgePeers
  import opened CachedFiles

  /** The clock and the time to deletion of one pass, and the names it cannot delete from the disk. */
  datatype Deadline = Deadline(now: Time, timeToDeletion: Time, undeletable: set<string>)

  predicate PastDeadline(f: File, d: Deadline) {
    f.timestamp + d.timeToDeletion < d.now
  }

  /** Past its deadline, and removable: a file that cannot be deleted stays queued. */
  predicate Expired(f: File, d: Deadline) {
    PastDeadline(f, d) && f.fileName !in d.undeletable
  }

  /** The pass as long as it reads live entries: the entry after a removed one is skipped. */
  function SkipPass(s: seq<File>, d: Deadline): seq<File> {
    if s == [] then []
    else if !Expired(s[0], d) then [s[0]] + SkipPass(s[1..], d)
    else if |s| == 1 then []
    else [s[1]] + SkipPass(s[2..], d)
  }

  /** The whole pass: the last entry of the queue, even if skipped, is still read at the end. */
  function Pass(s: seq<File>, d: Deadline): seq<File> {
    if s == [] then []
    else if !Expired(s[0], d) then [s[0]] + Pass(s[1..], d)
    else if |s| == 1 then []
    else if |s| == 2 then if Expired(s[1], d) then [] else [s[1]]
    else [s[1]] + Pass(s[2..], d)
  }

  function DropLastIf(s: seq<File>, last: File, d: Deadline): seq<File> {
    if s != [] && s[|s| - 1] == last && Expired(last, d) then s[..|s| - 1] else s
  }

  lemma DropLastBehind(f: File, s: seq<File>, last: File, d: Deadline)
    requires f != last
    ensures DropLastIf([f] + s, last, d) == [f] + DropLastIf(s, last, d)
  {
    if s != [] {
      assert ([f] + s)[..|s|] == [f] + s[..|s| - 1];
    }
  }

  /** The whole pass is the skipping pass with the last entry dropped if it is still there and expired. */
  lemma {:induction false} PassIsTrimmedSkipPass(s: seq<File>, last: File, d: Deadline)
    requires s != [] && UniqueNames(s) && last == s[|s| - 1]
    ensures Pass(s, d) == DropLastIf(SkipPass(s, d), last, d)
  {
    if |s| == 1 {
    } else if !Expired(s[0], d) {
      PassIsTrimmedSkipPass(s[1..], last, d);
      DropLastBehind(s[0], SkipPass(s[1..], d), last, d);
    } else if |s| == 2 {
      assert SkipPass(s[2..], d) == [];
    } else {
      PassIsTrimmedSkipPass(s[2..], last, d);
      DropLastBehind(s[1], SkipPass(s[2..], d), last, d);
    }
  }

  /** The entries that have not expired, in order. */
  function Fresh(s: seq<File>, d: Deadline): seq<File> {
    if s == [] then [] else (if Expired(s[0], d) then [] else [s[0]]) + Fresh(s[1..], d)
  }

  function ExpiredCount(s: seq<File>, d: Deadline): nat {
    if s == [] then 0 else (if Expired(s[0], d) then 1 else 0) + ExpiredCount(s[1..], d)
  }

  lemma TwoFirst(s: seq<File>, d: Deadline)
    requires |s| >= 2
    ensures Fresh(s, d) == (if Expired(s[0], d) then [] else [s[0]]) + (if Expired(s[1], d) then [] else [s[1]]) + Fresh(s[2..], d)
    ensures ExpiredCount(s, d) ==
            (if Expired(s[0], d) then 1 else 0) + (if Expired(s[1], d) then 1 else 0) + ExpiredCount(s[2..], d)
  {
    assert s[1..][1..] == s[2..];
  }

  /**
   One pass removes only expired entries, keeps the order of the others, and removes at
   least half of the expired ones.
   */
  lemma {:induction false} PassRemovesHalf(s: seq<File>, d: Deadline)
    ensures Fresh(Pass(s, d), d) == Fresh(s, d)
    ensures 2 * ExpiredCount(Pass(s, d), d) <= ExpiredCount(s, d)
  {
    if s != [] {
      if !Expired(s[0], d) {
        PassRemovesHalf(s[1..], d);
        assert Pass(s, d)[1..] == Pass(s[1..], d);
      } else if |s| >= 2 {
        TwoFirst(s, d);
        if |s| > 2 {
          PassRemovesHalf(s[2..], d);
          assert Pass(s, d)[1..] == Pass(s[2..], d);
        }
      }
    }
  }

  function Passes(s: seq<File>, d: Deadline, n: nat): seq<File> {
    if n == 0 then s else Pass(Passes(s, d, n - 1), d)
  }

  function TwoToThe(n: nat): nat {
    if n == 0 then 1 else 2 * TwoToThe(n - 1)
  }

  lemma {:induction false} TwoToTheExceeds(n: nat)
    ensures TwoToThe(n) > n
  {
    if n > 0 {
      TwoToTheExceeds(n - 1);
    }
  }

  lemma PassesOneMore(s: seq<File>, d: Deadline, n: nat)
    ensures Passes(s, d, 0) == s && Passes(s, d, n + 1) == Pass(Passes(s, d, n), d)
  {
  }

  /** As many passes as there are files clear every file that is too old and deletable, and no other. */
  lemma AsManyPassesClear(s: seq<File>, d: Deadline, n: nat)
    requires n >= |s|
    ensures forall f :: f in Passes(s, d, n) <==>
              f in s && (d.now - f.timestamp <= d.timeToDeletion || f.fileName in d.undeletable)
  {
    TwoToTheExceeds(n);
    PassesClear(s, d, n);
  }

  lemma {:induction false} NoneExpired(s: seq<File>, d: Deadline)
    ensures ExpiredCount(s, d) == 0 <==> Fresh(s, d) == s
    ensures ExpiredCount(s, d) == 0 <==> forall f :: f in s ==> !Expired(f, d)
    ensures |Fresh(s, d)| == |s| - ExpiredCount(s, d)
  {
    if s != [] {
      NoneExpired(s[1..], d);
      assert s == [s[0]] + s[1..];
    }
  }

  /** With a fixed clock, n passes clear everything once 2^n exceeds the number of expired entries. */
  lemma {:induction false} PassesClear(s: seq<File>, d: Deadline, n: nat)
    ensures Fresh(Passes(s, d, n), d) == Fresh(s, d)
    ensures TwoToThe(n) * ExpiredCount(Passes(s, d, n), d) <= ExpiredCount(s, d)
    ensures ExpiredCount(s, d) < TwoToThe(n) ==> Passes(s, d, n) == Fresh(s, d)
    ensures |s| < TwoToThe(n) ==>
              forall f :: f in Passes(s, d, n) <==>
                f in s && (d.now - f.timestamp <= d.timeToDeletion || f.fileName in d.undeletable)
  {
    if n > 0 {
      PassesClear(s, d, n - 1);
      PassRemovesHalf(Passes(s, d, n - 1), d);
      Scaled(TwoToThe(n - 1), ExpiredCount(Passes(s, d, n), d), ExpiredCount(Passes(s, d, n - 1), d));
    }
    AtLeastWhenPositive(TwoToThe(n), ExpiredCount(Passes(s, d, n), d));
    NoneExpired(Passes(s, d, n), d);
    NoneExpired(s, d);
    forall f
      ensures f in Fresh(s, d) <==> f in s && (d.now - f.timestamp <= d.timeToDeletion || f.fileName in d.undeletable)
    {
      FreshAre(s, d, f);
    }
  }

  lemma Scaled(k: nat, a: nat, b: nat)
    requires 2 * a <= b
    ensures (2 * k) * a <= k * b
  {
    assert (2 * k) * a == k * (2 * a);
  }

  lemma AtLeastWhenPositive(k: nat, a: nat)
    ensures a >= 1 ==> k * a >= k
  {
  }

  /** Two expired entries next to each other, not both at the end of the queue. */
  predicate NeighboursExpired(s: seq<File>, d: Deadline, i: nat) {
    i + 2 < |s| && Expired(s[i], d) && Expired(s[i + 1], d)
  }

  /**
   A single pass clears every expired entry exactly when no two of them are adjacent,
   except possibly the last two of the queue.
   */
  lemma {:induction false} OnePassClearsIff(s: seq<File>, d: Deadline)
    ensures Pass(s, d) == Fresh(s, d) <==> forall i :: !NeighboursExpired(s, d, i)
  {
    if |s| >= 2 {
      if !Expired(s[0], d) {
        var t := s[1..];
        OnePassClearsIff(t, d);
        assert forall i: nat :: NeighboursExpired(t, d, i) <==> NeighboursExpired(s, d, i + 1);
        assert forall i: nat :: NeighboursExpired(s, d, i) ==> i > 0 && NeighboursExpired(t, d, i - 1);
        assert Pass(s, d)[1..] == Pass(t, d) && Fresh(s, d)[1..] == Fresh(t, d);
      } else if |s| == 2 {
        TwoFirst(s, d);
      } else if Expired(s[1], d) {
        assert NeighboursExpired(s, d, 0);
        TwoFirst(s, d);
        assert Pass(s, d)[0] == s[1];
        FreshHasNoneExpired(s, d);
        assert s[1] in Pass(s, d) && s[1] !in Fresh(s, d);
      } else {
        var t := s[2..];
        OnePassClearsIff(t, d);
        TwoFirst(s, d);
        assert forall i: nat :: NeighboursExpired(t, d, i) <==> NeighboursExpired(s, d, i + 2);
        assert forall i: nat :: NeighboursExpired(s, d, i) ==> i > 1 && NeighboursExpired(t, d, i - 2);
        assert Pass(s, d)[1..] == Pass(t, d) && Fresh(s, d)[1..] == Fresh(t, d);
      }
    }
  }

  // ----- The same with the ages written out -----

  /** Not older than the time to deletion. */
  predicate Young(f: File, d: Deadline) {
    d.now - f.timestamp <= d.timeToDeletion
  }

  /** The young entries, in order. */
  function Younger(s: seq<File>, d: Deadline): seq<File> {
    if s == [] then [] else (if Young(s[0], d) then [s[0]] else []) + Younger(s[1..], d)
  }

  /** Youth does not depend on what can be deleted. */
  lemma {:induction false} SameYounger(s: seq<File>, d: Deadline, e: Deadline)
    requires d.now == e.now && d.timeToDeletion == e.timeToDeletion
    ensures Younger(s, d) == Younger(s, e)
  {
    if s != [] {
      SameYounger(s[1..], d, e);
    }
  }

  lemma {:induction false} YoungerAre(s: seq<File>, d: Deadline, f: File)
    ensures f in Younger(s, d) <==> f in s && d.now - f.timestamp <= d.timeToDeletion
  {
    if s != [] {
      YoungerAre(s[1..], d, f);
      assert s == [s[0]] + s[1..];
    }
  }

  lemma {:induction false} FreshAre(s: seq<File>, d: Deadline, f: File)
    ensures f in Fresh(s, d) <==> f in s && !Expired(f, d)
    ensures Younger(Fresh(s, d), d) == Younger(s, d)
  {
    if s != [] {
      FreshAre(s[1..], d, f);
      assert s == [s[0]] + s[1..];
      if !Expired(s[0], d) {
        assert Fresh(s, d)[1..] == Fresh(s[1..], d);
      } else {
        assert Fresh(s, d) == Fresh(s[1..], d);
      }
    }
  }

  lemma {:induction false} PassMembers(s: seq<File>, d: Deadline, f: File)
    ensures f in Pass(s, d) ==> f in s
  {
    if s != [] {
      if !Expired(s[0], d) {
        PassMembers(s[1..], d, f);
        assert s == [s[0]] + s[1..];
      } else if |s| > 2 {
        PassMembers(s[2..], d, f);
        assert s == [s[0], s[1]] + s[2..];
      }
    }
  }

  /**
   A pass by age: only files older than the time to deletion, and deletable, leave; all
   younger ones stay, in order; and if there is one to remove, at least one leaves.
   */
  lemma PassByAge(s: seq<File>, d: Deadline)
    ensures forall f :: f in Pass(s, d) ==> f in s
    ensures forall f :: f in s && f !in Pass(s, d) ==>
              d.now - f.timestamp > d.timeToDeletion && f.fileName !in d.undeletable
    ensures Younger(Pass(s, d), d) == Younger(s, d)
    ensures (exists f :: f in s && d.now - f.timestamp > d.timeToDeletion && f.fileName !in d.undeletable) ==> |Pass(s, d)| < |s|
  {
    var p := Pass(s, d);
    PassRemovesHalf(s, d);
    NoneExpired(s, d);
    NoneExpired(p, d);
    forall f | f in p
      ensures f in s
    {
      PassMembers(s, d, f);
    }
    forall f | f in s && f !in p
      ensures Expired(f, d)
    {
      FreshAre(s, d, f);
      FreshAre(p, d, f);
    }
    if s != [] {
      FreshAre(s, d, s[0]);
      FreshAre(p, d, s[0]);
    }
  }

  lemma {:induction false} FreshHasNoneExpired(s: seq<File>, d: Deadline)
    ensures forall f :: f in Fresh(s, d) ==> f in s && !Expired(f, d)
  {
    if s != [] {
      FreshHasNoneExpired(s[1..], d);
    }
  }

  /** Three expired entries: the middle one survives the pass. */
  lemma MiddleOfThreeSurvives(a: File, b: File, c: File, d: Deadline)
    requires Expired(a, d) && Expired(b, d) && Expired(c, d)
    ensures Pass([a, b, c], d) == [b] && Fresh([a, b, c], d) == []
  {
    TwoFirst([a, b, c], d);
    assert [a, b, c][2..] == [c];
  }

  // ----- The pass over the shifted slots -----

  /**
   The pass over `s` has read the slots below `i`.  `list` is the queue, and `slots` are the
   slots it started with: the queue, then copies of the last entry.  While live entries are
   left to read the last entry is still queued; afterwards only it can still go.
   */
  ghost predicate PassInv(s: seq<File>, d: Deadline, i: nat, list: seq<File>, slots: seq<File>, kept: seq<File>)
    requires s != []
  {
    var last := s[|s| - 1];
    && i <= |s| == |slots| && |list| <= |s|
    && UniqueNames(list)
    && (forall k :: 0 <= k < |list| ==> slots[k] == list[k])
    && (forall k :: |list| <= k < |s| ==> slots[k] == last)
    && From(list, s)
    && (last in list ==> list[|list| - 1] == last)
    && (if i <= |list| then |list| > 0 && list[|list| - 1] == last && list[..i] + SkipPass(list[i..], d) == kept
        else list == kept || (list == DropLastIf(kept, last, d) && last !in list))
    && (i == |s| && Expired(last, d) ==> last !in list)
  }

  lemma PassStarts(s: seq<File>, d: Deadline)
    requires s != [] && UniqueNames(s)
    ensures PassInv(s, d, 0, s, s, SkipPass(s, d))
  {
    assert s[..0] + SkipPass(s[0..], d) == SkipPass(s, d);
  }

  /** Every slot read holds an entry of the original queue. */
  lemma SlotIsOriginal(s: seq<File>, d: Deadline, i: nat, list: seq<File>, slots: seq<File>, kept: seq<File>)
    requires s != [] && i < |s| && PassInv(s, d, i, list, slots, kept)
    ensures slots[i] in s
    ensures i >= |list| ==> slots[i] == s[|s| - 1]
  {
  }

  lemma PassKeeps(s: seq<File>, d: Deadline, i: nat, next: nat, list: seq<File>, slots: seq<File>, kept: seq<File>)
    requires s != [] && i < |s| && next == i + 1 && PassInv(s, d, i, list, slots, kept) && !Expired(slots[i], d)
    ensures PassInv(s, d, next, list, slots, kept)
  {
    if i < |list| {
      assert list[i..][1..] == list[next..];
      assert list[..next] == list[..i] + [list[i]];
    } else if i == |list| {
      assert list[i..] == [];
      assert list[..i] == list;
    }
  }

  lemma PassMisses(s: seq<File>, d: Deadline, i: nat, next: nat, list: seq<File>, slots: seq<File>, kept: seq<File>)
    requires s != [] && i < |s| && next == i + 1 && PassInv(s, d, i, list, slots, kept) && slots[i] !in list
    ensures PassInv(s, d, next, list, slots, kept)
  {
    assert i >= |list|;
    assert slots[i] == s[|s| - 1];
  }

  /** A live entry is removed from where it is read; the copy of the last one from the end. */
  lemma PassRemoves(s: seq<File>, d: Deadline, i: nat, next: nat, list: seq<File>, slots: seq<File>, kept: seq<File>,
                    at: nat, rest: seq<File>, restSlots: seq<File>)
    requires s != [] && i < |s| && next == i + 1 && PassInv(s, d, i, list, slots, kept)
    requires Expired(slots[i], d) && at < |list| && list[at].fileName == slots[i].fileName && slots[i] in list
    requires rest == Without(list, at) && restSlots == rest + slots[|rest|..]
    ensures PassInv(s, d, next, rest, restSlots, kept)
  {
    assert list[at] == slots[i];
    RemainingFiles(list, at);
    if i < |list| {
      assert at == i;
      RemoveLive(d, i, next, list, kept, rest);
    } else {
      assert at == |list| - 1;
      assert rest == list[..at];
      assert i == |list| ==> list[i..] == [] && list[..i] == list;
    }
  }

  lemma RemoveLive(d: Deadline, i: nat, next: nat, list: seq<File>, kept: seq<File>, rest: seq<File>)
    requires i < |list| && next == i + 1 && Expired(list[i], d) && rest == Without(list, i)
    requires list[..i] + SkipPass(list[i..], d) == kept
    ensures if next <= |rest| then rest[..next] + SkipPass(rest[next..], d) == kept else rest == kept
  {
    var tail := list[i..];
    if |tail| > 1 {
      assert tail[2..] == list[i + 2..] == rest[next..];
      assert rest[..next] == list[..i] + [tail[1]];
    } else {
      assert rest == list[..i];
    }
  }

  lemma PassEnds(s: seq<File>, d: Deadline, list: seq<File>, slots: seq<File>)
    requires s != [] && UniqueNames(s) && PassInv(s, d, |s|, list, slots, SkipPass(s, d))
    ensures list == Pass(s, d)
  {
    PassIsTrimmedSkipPass(s, s[|s| - 1], d);
    if |list| == |s| {
      assert list[..|s|] == list && list[|s|..] == [];
    }
  }

  // ----- The pass as a fold over the slots -----

  /** The queue, and the slots it occupied when the pass began. */
  datatype PassView = PassView(list: seq<File>, slots: seq<File>)

  ghost function Position(list: seq<File>, f: File): (k: nat)
    requires f in list
    ensures k < |list| && list[k] == f
  {
    var k :| 0 <= k < |list| && list[k] == f;
    k
  }

  /** Reading slot `i`: an expired file that is still queued is removed, and the tail moves down. */
  ghost function SlotStep(v: PassView, i: nat, d: Deadline): PassView {
    if i < |v.slots| && |v.list| <= |v.slots| && Expired(v.slots[i], d) && v.slots[i] in v.list then
      var rest := Without(v.list, Position(v.list, v.slots[i]));
      PassView(rest, rest + v.slots[|rest|..])
    else v
  }

  lemma SlotStepRemoves(v: PassView, i: nat, d: Deadline, at: nat) returns (w: PassView)
    requires UniqueNames(v.list) && i < |v.slots| && |v.list| <= |v.slots| && Expired(v.slots[i], d)
    requires at < |v.list| && v.list[at].fileName == v.slots[i].fileName && v.slots[i] in v.list
    ensures w == SlotStep(v, i, d)
    ensures w.list == Without(v.list, at) && w.slots == w.list + v.slots[|w.list|..]
  {
    w := SlotStep(v, i, d);
    assert at == Position(v.list, v.slots[i]);
  }

  ghost function PassRun(s: seq<File>, d: Deadline, i: nat): PassView {
    if i == 0 then PassView(s, s) else SlotStep(PassRun(s, d, i - 1), i - 1, d)
  }

  lemma SlotStepKeepsInv(s: seq<File>, d: Deadline, i: nat, next: nat, v: PassView, w: PassView, kept: seq<File>)
    requires s != [] && i < |s| && next == i + 1 && PassInv(s, d, i, v.list, v.slots, kept) && w == SlotStep(v, i, d)
    ensures PassInv(s, d, next, w.list, w.slots, kept)
  {
    var f := v.slots[i];
    if !Expired(f, d) {
      PassKeeps(s, d, i, next, v.list, v.slots, kept);
    } else if f !in v.list {
      PassMisses(s, d, i, next, v.list, v.slots, kept);
    } else {
      var at := Position(v.list, f);
      PassRemoves(s, d, i, next, v.list, v.slots, kept, at, w.list, w.slots);
    }
  }

  lemma {:induction false} PassRunKeepsInv(s: seq<File>, d: Deadline, i: nat, v: PassView, kept: seq<File>)
    requires s != [] && i <= |s| && v == PassRun(s, d, i) && PassInv(s, d, 0, s, s, kept)
    ensures PassInv(s, d, i, v.list, v.slots, kept)
  {
    if i > 0 {
      var before := i - 1;
      var u := PassRun(s, d, before);
      PassRunKeepsInv(s, d, before, u, kept);
      PassRunStep(s, d, before, i, u, v);
      SlotStepKeepsInv(s, d, before, i, u, v, kept);
    }
  }

  lemma PassRunStep(s: seq<File>, d: Deadline, i: nat, next: nat, u: PassView, v: PassView)
    requires next == i + 1 && u == PassRun(s, d, i)
    ensures v == PassRun(s, d, next) <==> v == SlotStep(u, i, d)
  {
  }

  /** Reading all slots leaves exactly what `Pass` says. */
  lemma PassRunIsPass(s: seq<File>, d: Deadline, v: PassView)
    requires UniqueNames(s) && v == PassRun(s, d, |s|)
    ensures v.list == Pass(s, d)
  {
    if s != [] {
      PassStarts(s, d);
      PassRunKeepsInv(s, d, |s|, v, SkipPass(s, d));
      PassEnds(s, d, v.list, v.slots);
    }
  }

  lemma PassRunShape(s: seq<File>, d: Deadline, i: nat, v: PassView)
    requires UniqueNames(s) && i < |s| && v == PassRun(s, d, i)
    ensures |v.slots| == |s| && |v.list| <= |s| && From(v.list, s) && v.slots[i] in s
  {
    PassStarts(s, d);
    PassRunKeepsInv(s, d, i, v, SkipPass(s, d));
    SlotIsOriginal(s, d, i, v.list, v.slots, SkipPass(s, d));
  }

  /** A removal that moves the tail down moves it within any number of leading slots. */
  lemma SlotsAfterShift(before: seq<File>, after: seq<File>, rest: seq<File>, n: nat)
    requires |rest| <= n <= |before| && after == rest + before[|rest|..]
    ensures after[..n] == rest + before[..n][|rest|..]
  {
  }

  /** A name of the original queue is indexed exactly when its file is still queued. */
  lemma IndexedIffListed(s: seq<File>, list: seq<File>, index: map<string, File>, f: File)
    requires UniqueNames(s) && Agree(list, index) && From(list, s)
    requires f in s
    ensures f.fileName in index <==> f in list
  {
    if f.fileName in index {
      var g := index[f.fileName];
      var k :| 0 <= k < |list| && list[k] == g;
    }
  }
}
