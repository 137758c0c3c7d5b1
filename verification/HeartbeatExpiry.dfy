/**
 The expiry rule shared by the registry and the load balancer: a check at some instant
 drops every member whose last heartbeat is more than the threshold older than the
 PREVIOUS check, and then records its own instant.
 */
module HeartbeatExpiry {
  import opened EdgePeers

  datatype Members<K> = Members(heartbeats: map<K, Time>, lastCheck: Time)

  datatype Event<K> = Heard(member: K, at: Time) | Check(at: Time)

  predicate Stale(lastHeartbeat: Time, lastCheck: Time, threshold: Time) {
    lastCheck - lastHeartbeat > threshold
  }

  function Survivors<K>(heartbeats: map<K, Time>, lastCheck: Time, threshold: Time): map<K, Time> {
    map k | k in heartbeats && !Stale(heartbeats[k], lastCheck, threshold) :: heartbeats[k]
  }

  function Apply<K>(m: Members<K>, e: Event<K>, threshold: Time): Members<K> {
    match e
    case Heard(k, at) => m.(heartbeats := m.heartbeats[k := at])
    case Check(at) => Members(Survivors(m.heartbeats, m.lastCheck, threshold), at)
  }

  /** The members after a run of handlers, oldest first. */
  function Run<K>(m: Members<K>, events: seq<Event<K>>, threshold: Time): Members<K>
    decreases |events|
  {
    if events == [] then m
    else Apply(Run(m, events[..|events| - 1], threshold), events[|events| - 1], threshold)
  }

  lemma RunOneMore<K>(m: Members<K>, events: seq<Event<K>>, e: Event<K>, threshold: Time)
    ensures Run(m, [], threshold) == m && Run(m, events + [e], threshold) == Apply(Run(m, events, threshold), e, threshold)
  {
    assert (events + [e])[..|events|] == events;
  }

  /** Event instants never go back, and no event comes before the recorded check. */
  ghost predicate Ordered<K>(m: Members<K>, events: seq<Event<K>>) {
    && (forall i :: 0 <= i < |events| ==> m.lastCheck <= events[i].at)
    && (forall i, j :: 0 <= i < j < |events| ==> events[i].at <= events[j].at)
  }

  lemma {:induction false} RunNeverLooksAhead<K>(m: Members<K>, events: seq<Event<K>>, threshold: Time)
    requires Ordered(m, events)
    ensures m.lastCheck <= Run(m, events, threshold).lastCheck
    ensures events != [] ==> Run(m, events, threshold).lastCheck <= events[|events| - 1].at
  {
    if events != [] {
      var before := events[..|events| - 1];
      assert forall i :: 0 <= i < |before| ==> before[i] == events[i];
      RunNeverLooksAhead(m, before, threshold);
    }
  }

  /**
   In every reachable state a member was heard from at most `threshold + period` before
   the last check, and so at most `threshold + 2 * period` before any later instant that
   is still within `period` of that check.
   */
  lemma {:induction false} MembersAreRecent<K>(m: Members<K>, events: seq<Event<K>>, threshold: Time, period: Time)
    requires threshold >= 0 && period >= 0
    requires (forall i :: 0 <= i < |events| ==> m.lastCheck <= events[i].at)
    requires (forall i, j :: 0 <= i < j < |events| ==> events[i].at <= events[j].at)
    requires forall i :: 0 <= i < |events| ==> events[i].at - Run(m, events[..i], threshold).lastCheck <= period
    requires forall k :: k in m.heartbeats ==> m.lastCheck - m.heartbeats[k] <= threshold + period
    ensures var after := Run(m, events, threshold);
            forall k :: k in after.heartbeats ==> after.lastCheck - after.heartbeats[k] <= threshold + period
  {
    if events != [] {
      var before := events[..|events| - 1];
      assert forall i :: 0 <= i < |before| ==> before[i] == events[i] && before[..i] == events[..i];
      MembersAreRecent(m, before, threshold, period);
      RunNeverLooksAhead(m, before, threshold);
      RunNeverLooksAhead(m, events, threshold);
    }
  }

  /** What is recorded of a member that is present: the instant of its last heartbeat, if the run has one. */
  lemma {:induction false} LastHeardIs<K>(m: Members<K>, events: seq<Event<K>>, threshold: Time, k: K, h: nat)
    requires h < |events| && events[h] == Heard(k, events[h].at)
    requires forall i :: h < i < |events| ==> events[i].Check? || events[i].member != k
    requires k in Run(m, events, threshold).heartbeats
    ensures Run(m, events, threshold).heartbeats[k] == events[h].at
    decreases |events|
  {
    var n := |events| - 1;
    if h < n {
      assert events[..n][h] == events[h];
      LastHeardIs(m, events[..n], threshold, k, h);
    }
  }

  /** A member last heard from at `events[h]` is gone after that instant plus `threshold + 2 * period`. */
  lemma SilentMemberIsGone<K>(m: Members<K>, events: seq<Event<K>>, threshold: Time, period: Time, now: Time, k: K, h: nat)
    requires threshold >= 0 && period >= 0
    requires (forall i :: 0 <= i < |events| ==> m.lastCheck <= events[i].at)
    requires (forall i, j :: 0 <= i < j < |events| ==> events[i].at <= events[j].at)
    requires forall i :: 0 <= i < |events| ==> events[i].at - Run(m, events[..i], threshold).lastCheck <= period
    requires forall k :: k in m.heartbeats ==> m.lastCheck - m.heartbeats[k] <= threshold + period
    requires now - Run(m, events, threshold).lastCheck <= period
    requires h < |events| && events[h] == Heard(k, events[h].at)
    requires forall i :: h < i < |events| ==> events[i].Check? || events[i].member != k
    ensures now > events[h].at + threshold + 2 * period ==> k !in Run(m, events, threshold).heartbeats
  {
    MembersAreRecent(m, events, threshold, period);
    if k in Run(m, events, threshold).heartbeats {
      LastHeardIs(m, events, threshold, k, h);
    }
  }

  /** The instants of the checks of a run, oldest first. */
  function CheckTimes<K>(events: seq<Event<K>>): seq<Time>
    decreases |events|
  {
    if events == [] then []
    else
      var before := CheckTimes(events[..|events| - 1]);
      if events[|events| - 1].Check? then before + [events[|events| - 1].at] else before
  }

  /** The check before the last one, which is the one the last check compared against. */
  function ComparedAgainst<K>(m: Members<K>, events: seq<Event<K>>): Time {
    var checks := CheckTimes(events);
    if |checks| <= 1 then m.lastCheck else checks[|checks| - 2]
  }

  lemma {:induction false} LastCheckIs<K>(m: Members<K>, events: seq<Event<K>>, threshold: Time)
    ensures Run(m, events, threshold).lastCheck ==
            if CheckTimes(events) == [] then m.lastCheck else CheckTimes(events)[|CheckTimes(events)| - 1]
  {
    if events != [] {
      LastCheckIs(m, events[..|events| - 1], threshold);
    }
  }

  ghost predicate Silent<K>(events: seq<Event<K>>, k: K) {
    forall i :: 0 <= i < |events| ==> events[i].Check? || events[i].member != k
  }

  lemma {:induction false} ComparedAgainstGrows<K>(m: Members<K>, events: seq<Event<K>>, threshold: Time)
    requires Ordered(m, events)
    ensures ComparedAgainst(m, events) <= Run(m, events, threshold).lastCheck
  {
    if events != [] {
      var before := events[..|events| - 1];
      assert forall i :: 0 <= i < |before| ==> before[i] == events[i];
      ComparedAgainstGrows(m, before, threshold);
      LastCheckIs(m, before, threshold);
      LastCheckIs(m, events, threshold);
      RunNeverLooksAhead(m, before, threshold);
    }
  }

  /**
   Over any run in which `k` stays silent, `k` survives exactly when no check was made or
   the last check compared against an instant within the threshold of `k`'s heartbeat.
   */
  lemma {:induction false} SilentMemberSurvivesIff<K>(m: Members<K>, events: seq<Event<K>>, threshold: Time, k: K)
    requires Ordered(m, events) && Silent(events, k) && k in m.heartbeats
    ensures k in Run(m, events, threshold).heartbeats <==>
              CheckTimes(events) == [] || ComparedAgainst(m, events) - m.heartbeats[k] <= threshold
    ensures k in Run(m, events, threshold).heartbeats ==>
              Run(m, events, threshold).heartbeats[k] == m.heartbeats[k]
  {
    if events != [] {
      var before := events[..|events| - 1];
      assert forall i :: 0 <= i < |before| ==> before[i] == events[i];
      SilentMemberSurvivesIff(m, before, threshold, k);
      LastCheckIs(m, before, threshold);
      ComparedAgainstGrows(m, before, threshold);
    }
  }

  /** With no check behind `c`, the check at `c` is the last one. */
  lemma {:induction false} LastCheckAt<K>(events: seq<Event<K>>, c: nat)
    requires c < |events| && events[c].Check? && forall i :: c < i < |events| ==> events[i].Heard?
    ensures CheckTimes(events) == CheckTimes(events[..c]) + [events[c].at]
    decreases |events|
  {
    var n := |events| - 1;
    if c < n {
      assert forall i :: 0 <= i < n ==> events[..n][i] == events[i];
      LastCheckAt(events[..n], c);
      assert events[..n][..c] == events[..c];
    }
  }

  lemma {:induction false} NoChecks<K>(events: seq<Event<K>>)
    requires forall i :: 0 <= i < |events| ==> events[i].Heard?
    ensures CheckTimes(events) == []
  {
    if events != [] {
      NoChecks(events[..|events| - 1]);
    }
  }

  /** The recorded check of a run is its last one, or the one recorded before it. */
  lemma RecordedCheckIs<K>(m: Members<K>, events: seq<Event<K>>, threshold: Time, c: int)
    requires -1 <= c < |events| && (c >= 0 ==> events[c].Check?) && forall i :: c < i < |events| ==> events[i].Heard?
    ensures Run(m, events, threshold).lastCheck == if c >= 0 then events[c].at else m.lastCheck
  {
    LastCheckIs(m, events, threshold);
    if c >= 0 {
      LastCheckAt(events, c);
    } else {
      NoChecks(events);
    }
  }

  /**
   A member silent through a run whose last check is at `c` survives exactly when its
   heartbeat was within the threshold of the check before that one: the one at `b`, or the
   one recorded before the run if there is none.
   */
  lemma SilentMemberSurvivesCheckIff<K>(m: Members<K>, events: seq<Event<K>>, threshold: Time, k: K, b: int, c: nat)
    requires k in m.heartbeats && (forall i :: 0 <= i < |events| ==> m.lastCheck <= events[i].at)
    requires (forall i, j :: 0 <= i < j < |events| ==> events[i].at <= events[j].at)
    requires forall i :: 0 <= i < |events| ==> events[i].Check? || events[i].member != k
    requires -1 <= b < c < |events| && events[c].Check? && (b >= 0 ==> events[b].Check?)
    requires forall i :: b < i < |events| && i != c ==> events[i].Heard?
    ensures k in Run(m, events, threshold).heartbeats <==>
              (if b >= 0 then events[b].at else m.lastCheck) - m.heartbeats[k] <= threshold
  {
    LastCheckAt(events, c);
    assert forall i :: 0 <= i < c ==> events[..c][i] == events[i];
    if b >= 0 {
      LastCheckAt(events[..c], b);
    } else {
      NoChecks(events[..c]);
    }
    SilentMemberSurvivesIff(m, events, threshold, k);
  }

  /** Some heartbeat of `k` among the first `i` events is recent enough for a check made there. */
  ghost predicate HeardInTime<K>(m: Members<K>, events: seq<Event<K>>, threshold: Time, k: K, i: nat)
    requires i <= |events|
  {
    exists j :: 0 <= j < i && events[j] == Heard(k, events[j].at) &&
                Run(m, events[..i], threshold).lastCheck - events[j].at <= threshold
  }

  lemma HeardInTimeOfPrefix<K>(m: Members<K>, events: seq<Event<K>>, threshold: Time, k: K, i: nat, n: nat)
    requires i <= n <= |events| && HeardInTime(m, events, threshold, k, i)
    ensures HeardInTime(m, events[..n], threshold, k, i)
  {
    var j :| 0 <= j < i && events[j] == Heard(k, events[j].at) &&
             Run(m, events[..i], threshold).lastCheck - events[j].at <= threshold;
    assert events[..n][..i] == events[..i] && events[..n][j] == events[j];
  }

  /** The last heartbeat among the first `i` events, from `h` on, is recent if any earlier one is. */
  lemma RecentFrom<K>(m: Members<K>, events: seq<Event<K>>, threshold: Time, k: K, h: nat, i: nat) returns (j: nat)
    requires Ordered(m, events) && h < i <= |events| && events[h] == Heard(k, events[h].at)
    requires HeardInTime(m, events, threshold, k, i)
    ensures h <= j < i && events[j] == Heard(k, events[j].at)
    ensures Run(m, events[..i], threshold).lastCheck - events[j].at <= threshold
  {
    j :| 0 <= j < i && events[j] == Heard(k, events[j].at) &&
         Run(m, events[..i], threshold).lastCheck - events[j].at <= threshold;
    if j < h {
      j := h;
    }
  }

  lemma {:induction false} HeardMemberStays<K>(m: Members<K>, events: seq<Event<K>>, threshold: Time, k: K, h: nat)
    requires Ordered(m, events) && h < |events| && events[h] == Heard(k, events[h].at)
    requires forall i :: h < i < |events| && events[i].Check? ==> HeardInTime(m, events, threshold, k, i)
    ensures k in Run(m, events, threshold).heartbeats
    ensures events[h].at <= Run(m, events, threshold).heartbeats[k]
    decreases |events|, |events| - h
  {
    var n := |events| - 1;
    if h < n {
      var before := events[..n];
      assert forall i :: 0 <= i < n ==> before[i] == events[i];
      forall i | h < i < n && before[i].Check?
        ensures HeardInTime(m, before, threshold, k, i)
      {
        assert events[i].Check?;
        HeardInTimeOfPrefix(m, events, threshold, k, i, n);
      }
      HeardMemberStays(m, before, threshold, k, h);
      if events[n].Check? {
        var j := RecentFrom(m, events, threshold, k, h, n);
        HeardMemberStays(m, before, threshold, k, j);
      }
    }
  }

  /**
   A member always heard from within the threshold of the previous check is never dropped:
   from a heartbeat on, every check finds one that is recent enough.
   */
  lemma PromptMemberStays<K>(m: Members<K>, events: seq<Event<K>>, threshold: Time, k: K, h: nat)
    requires (forall i :: 0 <= i < |events| ==> m.lastCheck <= events[i].at)
    requires (forall i, j :: 0 <= i < j < |events| ==> events[i].at <= events[j].at)
    requires h < |events| && events[h] == Heard(k, events[h].at)
    requires forall i :: h < i < |events| && events[i].Check? ==>
               exists j :: 0 <= j < i && events[j] == Heard(k, events[j].at) &&
                           Run(m, events[..i], threshold).lastCheck - events[j].at <= threshold
    ensures k in Run(m, events, threshold).heartbeats
    ensures events[h].at <= Run(m, events, threshold).heartbeats[k]
  {
    forall i | h < i < |events| && events[i].Check?
      ensures HeardInTime(m, events, threshold, k, i)
    {
    }
    HeardMemberStays(m, events, threshold, k, h);
  }
}
