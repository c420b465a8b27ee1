// The gates of main/auth.cpp that use the limiter, as the class that owns the
// bucket table and over whole sequences of sign-in attempts handled one by one.
module LimiterGate {
  import opened Bytes
  import opened Limiter
  import opened LimiterRuns

  class Gatekeeper {
    const buckets: array<Bucket>
    ghost var history: seq<Failure>

    ghost predicate Valid()
      reads this, buckets
    {
      buckets.Length == BUCKETS && buckets[..] == Run(history)
    }

    constructor ()
      ensures Valid() && history == [] && fresh(buckets)
    {
      buckets := new Bucket[BUCKETS](_ => FREE);
      history := [];
      new;
      assert buckets[..] == seq(BUCKETS, _ => FREE);
    }

    /** bucket_find. */
    method BucketFind(ip: U32) returns (r: int)
      requires Valid()
      ensures r == FindFrom(buckets[..], ip, 0)
    {
      hide Run;
      for i := 0 to BUCKETS
        invariant FindFrom(buckets[..], ip, i) == FindFrom(buckets[..], ip, 0)
      {
        if buckets[i].lastUse != 0 && buckets[i].ip == ip { return i; }
      }
      return -1;
    }

    /** The bucket record_failure writes to: the peer's own, or the least recently
        used one, zeroed. */
    method Claim(ip: U32) returns (b: nat)
      requires Valid()
      modifies buckets
      ensures b == Target(old(buckets[..]), ip)
      ensures buckets[..] == old(buckets[..])[b := Claimed(old(buckets[..]), ip)]
    {
      hide Run;
      ghost var s := buckets[..];
      var r := BucketFind(ip);
      if r >= 0 { return r; }
      b := 0;
      for e := 0 to BUCKETS
        invariant b < BUCKETS && if e == 0 then b == 0 else b == OldestAmong(s, e)
        invariant buckets[..] == s
      {
        if buckets[e].lastUse < buckets[b].lastUse { b := e; }
      }
      buckets[b] := FREE;
      buckets[b] := buckets[b].(ip := ip);
    }

    /** record_failure at clock reading `now`. */
    method RecordFailure(ip: U32, now: U32)
      requires Valid()
      modifies this, buckets
      ensures Valid() && history == old(history) + [Failure(ip, now)]
    {
      hide Run, Record, Target, Claimed;
      ghost var s := buckets[..];
      RunStep(history, Failure(ip, now));
      RecordIs(s, ip, now);
      var b := Claim(ip);
      var k: Bucket := buckets[b];
      k := k.(lastUse := now);
      k := k.(ts := k.ts[k.head := now]);
      k := k.(head := (k.head + 1) % LIMIT);
      buckets[b] := k;
      history := history + [Failure(ip, now)];
      assert buckets[..] == s[b := k];
    }

    /** locked at clock reading `now`. */
    method Locked(ip: U32, now: U32) returns (r: bool)
      requires Valid()
      ensures r == LockedIn(Run(history), ip, now)
    {
      hide Run;
      var b := BucketFind(ip);
      if b < 0 { return false; }
      var ts := buckets[b].ts;
      var recent := 0;
      for k := 0 to LIMIT
        invariant recent == RecentIn(ts[..k], now)
      {
        assert ts[..k + 1][..k] == ts[..k];
        if Recent(ts[k], now) { recent := recent + 1; }
      }
      assert ts[..LIMIT] == ts;
      r := recent >= LIMIT;
    }

    /** check_request, password_check and auth_check_token: refuse a locked peer
        without looking at its credential, and record a bad credential. `enabled`
        is the switch of the token gates; `good` is whether the credential is. The
        clock is read twice: when the lock is asked for, and, perhaps thousands of
        hash rounds later, when the failure is recorded. */
    method Attempt(enabled: bool, ip: U32, asked: U32, recorded: U32, good: bool) returns (granted: bool)
      requires Valid()
      modifies this, buckets
      ensures Valid()
      ensures enabled && !good && !LockedIn(Run(old(history)), ip, asked) ==>
                history == old(history) + [Failure(ip, recorded)]
      ensures !enabled || good || LockedIn(Run(old(history)), ip, asked) ==> history == old(history)
      ensures enabled ==> history == Gated(old(history), Try(ip, asked, recorded, good))
      ensures granted <==> !enabled || (good && !LockedIn(Run(old(history)), ip, asked))
    {
      hide Run;
      if !enabled { return true; }
      var l := Locked(ip, asked);
      if l { return false; }
      if !good {
        RecordFailure(ip, recorded);
        return false;
      }
      return true;
    }
  }

  function Target(s: Table, ip: U32): (b: nat)
    ensures b < BUCKETS
  {
    if FindFrom(s, ip, 0) >= 0 then FindFrom(s, ip, 0) else OldestAmong(s, BUCKETS)
  }

  function Claimed(s: Table, ip: U32): Bucket {
    if FindFrom(s, ip, 0) >= 0 then s[FindFrom(s, ip, 0)] else FREE.(ip := ip)
  }

  lemma RecordIs(s: Table, ip: U32, now: U32)
    ensures Record(s, ip, now) == s[Target(s, ip) := Entered(Claimed(s, ip), now)]
  {
  }

  // ---- Sequences of attempts -----------------------------------------------

  /** An attempt: when the lock was asked for, and when a failure was recorded. */
  datatype Try = Try(ip: U32, asked: U32, recorded: U32, good: bool)

  /** The failures on record after one attempt. */
  function Gated(h: seq<Failure>, a: Try): seq<Failure> {
    if LockedIn(Run(h), a.ip, a.asked) || a.good then h else h + [Failure(a.ip, a.recorded)]
  }

  function GatedRun(h: seq<Failure>, tries: seq<Try>): seq<Failure> {
    if tries == [] then h else Gated(GatedRun(h, tries[..|tries| - 1]), tries[|tries| - 1])
  }

  /** Attempts of any addresses one after the other, none before `now`. */
  predicate TriesFrom(tries: seq<Try>, now: U32) {
    && (forall k :: 0 <= k < |tries| ==> now <= tries[k].asked <= tries[k].recorded)
    && forall j, k :: 0 <= j < k < |tries| ==> tries[j].recorded <= tries[k].asked
  }

  /** All attempts since the start, at which the clock already shows 1. */
  predicate TriesClocked(tries: seq<Try>) {
    TriesFrom(tries, 1)
  }

  function LastClock(tries: seq<Try>, now: U32): U32 {
    if tries == [] then now else tries[|tries| - 1].recorded
  }

  lemma ClockedAppend(h: seq<Failure>, f: Failure)
    requires Clocked(h) && NotBefore(h, f.t)
    ensures Clocked(h + [f]) && NotBefore(h + [f], f.t)
  {
  }

  lemma LaterStill(h: seq<Failure>, now: U32, later: U32)
    requires NotBefore(h, now) && now <= later
    ensures NotBefore(h, later)
  {
  }

  /** The record grows in clock order. */
  lemma {:induction false} GatedRunGrows(h: seq<Failure>, now: U32, tries: seq<Try>)
    requires Clocked(h) && NotBefore(h, now) && TriesFrom(tries, now)
    ensures h <= GatedRun(h, tries) && Clocked(GatedRun(h, tries))
    ensures NotBefore(GatedRun(h, tries), LastClock(tries, now))
  {
    hide LockedIn, Run, Clocked, NotBefore;
    if tries != [] {
      var init, a := tries[..|tries| - 1], tries[|tries| - 1];
      assert forall k :: 0 <= k < |init| ==> init[k] == tries[k];
      GatedRunGrows(h, now, init);
      var g := GatedRun(h, init);
      LaterStill(g, LastClock(init, now), a.recorded);
      ClockedAppend(g, Failure(a.ip, a.recorded));
    }
  }

  /** The clock at the last of some attempts has not passed what the record holds. */
  lemma {:induction false} BeforeLastTry(h: seq<Failure>, now: U32, tries: seq<Try>)
    requires Clocked(h) && NotBefore(h, now) && TriesFrom(tries, now) && tries != []
    ensures var g, a := GatedRun(h, tries[..|tries| - 1]), tries[|tries| - 1];
            TriesFrom(tries[..|tries| - 1], now) && Clocked(g) && NotBefore(g, a.asked) && NotBefore(g, a.recorded)
  {
    hide Clocked, NotBefore, GatedRun;
    var init, a := tries[..|tries| - 1], tries[|tries| - 1];
    assert forall k :: 0 <= k < |init| ==> init[k] == tries[k];
    GatedRunGrows(h, now, init);
    LaterStill(GatedRun(h, init), LastClock(init, now), a.asked);
    LaterStill(GatedRun(h, init), LastClock(init, now), a.recorded);
  }

  /** Any failure still tracked comes a full minute after its fifth-previous one. */
  predicate Spaced(T: seq<U32>) {
    forall i :: LIMIT <= i < |T| ==> T[i] - T[i - LIMIT] >= WINDOW
  }

  lemma SpacedStep(T: seq<U32>, asked: U32, recorded: U32)
    requires Spaced(T) && !(|T| >= LIMIT && asked - T[|T| - LIMIT] < WINDOW) && asked <= recorded
    ensures Spaced(T + [recorded])
  {
  }

  lemma SpacedNothing()
    ensures Spaced([])
  {
  }

  /** Sliding-window bound: because every gate asks `locked` first, no six tracked
      failures of one address fall within a minute. */
  lemma {:induction false} FailuresAreSpaced(tries: seq<Try>, ip: U32)
    requires TriesClocked(tries)
    ensures Spaced(Tracked(GatedRun([], tries), ip))
  {
    hide Run, LockedIn, Evicts, Times, Tracked, Spaced;
    SpacedNothing();
    if tries == [] {
      NoTimes(ip);
    } else {
      var init, a := tries[..|tries| - 1], tries[|tries| - 1];
      BeforeLastTry([], 1, tries);
      FailuresAreSpaced(init, ip);
      var h := GatedRun([], init);
      if !LockedIn(Run(h), a.ip, a.asked) && !a.good {
        RunStep(h, Failure(a.ip, a.recorded));
        LockedExactly(h, a.ip, a.asked);
        if a.ip == ip { SpacedStep(Tracked(h, ip), a.asked, a.recorded); }
      }
    }
  }

  /** The same bound for the whole record when at most eight addresses fail. */
  lemma {:induction false} AllFailuresAreSpaced(tries: seq<Try>, ip: U32)
    requires TriesClocked(tries) && |Addresses(GatedRun([], tries))| <= BUCKETS
    ensures Spaced(Times(GatedRun([], tries), ip))
  {
    hide Run, Tracked, Times, Addresses, GatedRun;
    GatedRunGrows([], 1, tries);
    NothingForgotten(GatedRun([], tries), ip);
    FailuresAreSpaced(tries, ip);
  }

  /** In numbers: six failures of one address that are on record with at most eight
      failing ones never lie within 60 000 ms. */
  lemma {:induction false} NoSixInAMinute(tries: seq<Try>, ip: U32, ks: seq<nat>)
    requires forall k :: 0 <= k < |tries| ==> 1 <= tries[k].asked <= tries[k].recorded
    requires forall j, k :: 0 <= j < k < |tries| ==> tries[j].recorded <= tries[k].asked
    requires var h := GatedRun([], tries);
             && |set k | 0 <= k < |h| :: h[k].ip| <= 8
             && |ks| == 6 && (forall i, j :: 0 <= i < j < 6 ==> ks[i] < ks[j])
             && forall i :: 0 <= i < 6 ==> ks[i] < |h| && h[ks[i]].ip == ip
    ensures var h := GatedRun([], tries); h[ks[5]].t - h[ks[0]].t >= 60_000
  {
    hide Run, Tracked, Times, Spaced, GatedRun;
    var h := GatedRun([], tries);
    AllFailuresAreSpaced(tries, ip);
    GatedRunGrows([], 1, tries);
    TimesAscend(h, ip);
    var ps := Placed(h, ip, ks);
    SpacedGap(Times(h, ip), ps[0], ps[5]);
  }

  lemma SpacedGap(T: seq<U32>, i: nat, j: nat)
    requires Spaced(T) && Ascending(T) && i + 5 <= j < |T|
    ensures T[j] - T[i] >= 60_000
  {
    assert T[i + 5] - T[i + 5 - LIMIT] >= WINDOW;
  }

  /** Where failures of the address stand among its times. */
  lemma {:induction false} Placed(h: seq<Failure>, ip: U32, ks: seq<nat>) returns (ps: seq<nat>)
    requires forall i, j :: 0 <= i < j < |ks| ==> ks[i] < ks[j]
    requires forall i :: 0 <= i < |ks| ==> ks[i] < |h| && h[ks[i]].ip == ip
    ensures |ps| == |ks| && forall i :: 0 <= i < |ps| ==> ps[i] < |Times(h, ip)| && Times(h, ip)[ps[i]] == h[ks[i]].t
    ensures forall i, j :: 0 <= i < j < |ps| ==> ps[j] - ps[i] >= j - i
    decreases |h|
  {
    if ks == [] {
      ps := [];
    } else {
      assert ks[|ks| - 1] < |h|;
      var init, last := h[..|h| - 1], ks[|ks| - 1];
      if last == |h| - 1 {
        var front := ks[..|ks| - 1];
        assert forall i :: 0 <= i < |front| ==> front[i] == ks[i] < last;
        var qs := Placed(init, ip, front);
        var U := Times(init, ip);
        ps := qs + [|U|];
        assert Times(h, ip) == U + [h[last].t];
        forall i | 0 <= i < |qs|
          ensures |U| - qs[i] >= |qs| - i
        {
          if i < |qs| - 1 { assert qs[|qs| - 1] - qs[i] >= |qs| - 1 - i; }
        }
      } else {
        assert forall i :: 0 <= i < |ks| ==> ks[i] <= last;
        ps := Placed(init, ip, ks);
      }
    }
  }

  // ---- A lock while others go on -------------------------------------------

  /** When the lock that `h` puts on an address ends. */
  function LockEnd(h: seq<Failure>, ip: U32): int {
    var T := Tracked(h, ip);
    if |T| >= LIMIT then T[|T| - LIMIT] + WINDOW else 0
  }

  /** A lock lasts exactly until the oldest of the five failures is a minute old,
      as long as the record does not change. */
  lemma {:induction false} LockEnds(h: seq<Failure>, ip: U32, now: U32, later: U32)
    requires Clocked(h) && NotBefore(h, now) && now <= later
    requires LockedIn(Run(h), ip, now)
    ensures |Tracked(h, ip)| >= LIMIT && (LockedIn(Run(h), ip, later) <==> later < LockEnd(h, ip))
  {
    hide Run, LockedIn, Tracked;
    LockedExactly(h, ip, now);
    LockedExactly(h, ip, later);
  }

  /** While a lock lasts, nothing that is tried extends it, by the locked address
      or by any other, and only a crowd of eight other addresses that failed since
      its last failure can make the table forget it. */
  lemma {:induction false} LockOutlastsTries(h: seq<Failure>, ip: U32, now: U32, tries: seq<Try>)
    requires Clocked(h) && NotBefore(h, now) && LockedIn(Run(h), ip, now) && TriesFrom(tries, now)
    requires forall k :: 0 <= k < |tries| ==> tries[k].asked < LockEnd(h, ip)
    ensures var T, g := Tracked(h, ip), GatedRun(h, tries);
            |T| >= LIMIT && (Tracked(g, ip) == T || Crowded(g, ip, T[|T| - 1]))
  {
    hide Run, LockedIn, Tracked, Times, Crowded, Evicts, Clocked, NotBefore;
    LockedExactly(h, ip, now);
    if tries != [] {
      var init, a := tries[..|tries| - 1], tries[|tries| - 1];
      assert forall k :: 0 <= k < |init| ==> init[k] == tries[k];
      BeforeLastTry(h, now, tries);
      LockOutlastsTries(h, ip, now, init);
      OneMoreTry(Tracked(h, ip), ip, GatedRun(h, init), a);
    }
  }

  lemma {:induction false} OneMoreTry(T: seq<U32>, ip: U32, g: seq<Failure>, a: Try)
    requires |T| >= LIMIT && a.asked < T[|T| - LIMIT] + WINDOW
    requires Clocked(g) && NotBefore(g, a.asked) && NotBefore(g, a.recorded)
    requires Tracked(g, ip) == T || Crowded(g, ip, T[|T| - 1])
    ensures Tracked(Gated(g, a), ip) == T || Crowded(Gated(g, a), ip, T[|T| - 1])
  {
    hide Run, LockedIn, Tracked, Times, Crowded, Evicts, Clocked, NotBefore;
    var f := Failure(a.ip, a.recorded);
    if Crowded(g, ip, T[|T| - 1]) {
      CrowdedStays(g, f, ip, T[|T| - 1]);
    } else {
      LockedExactly(g, ip, a.asked);
      RunStep(g, f);
      if a.ip != ip && Evicts(Run(g), a.ip, ip) {
        ClockedAppend(g, f);
        AlwaysFaithful(g);
        EvictionNeedsACrowd(g, f, ip);
        LastTracked(g, ip);
      }
    }
  }

  lemma {:induction false} LastTracked(h: seq<Failure>, ip: U32)
    requires Tracked(h, ip) != []
    ensures var T, U := Tracked(h, ip), Times(h, ip); U != [] && T[|T| - 1] == U[|U| - 1]
  {
    hide Tracked, Times;
    TrackedIsSuffix(h, ip);
  }

  /** With at most eight failing addresses a lock ends exactly when the oldest of
      its five failures is a minute old, whatever anyone tries meanwhile. */
  lemma {:induction false} LockEndsOnTime(h: seq<Failure>, ip: U32, now: U32, tries: seq<Try>, later: U32)
    requires Clocked(h) && NotBefore(h, now) && LockedIn(Run(h), ip, now) && TriesFrom(tries, now)
    requires forall k :: 0 <= k < |tries| ==> tries[k].asked < LockEnd(h, ip)
    requires |Addresses(GatedRun(h, tries))| <= BUCKETS && NotBefore(GatedRun(h, tries), later)
    ensures Tracked(GatedRun(h, tries), ip) == Tracked(h, ip)
    ensures LockedIn(Run(GatedRun(h, tries)), ip, later) <==> later < LockEnd(h, ip)
  {
    hide Run, LockedIn, Tracked, Times, Crowded, Addresses, TriesFrom, GatedRun;
    var T, g := Tracked(h, ip), GatedRun(h, tries);
    LockOutlastsTries(h, ip, now, tries);
    GatedRunGrows(h, now, tries);
    if Crowded(g, ip, T[|T| - 1]) {
      TrackedIsSuffix(h, ip);
      TimesGrow(h, g, ip);
      CrowdIsNine(g, ip, T[|T| - 1]);
    }
    LockedExactly(g, ip, later);
  }

  lemma {:induction false} TimesGrow(h: seq<Failure>, g: seq<Failure>, ip: U32)
    requires h <= g
    ensures |Times(h, ip)| <= |Times(g, ip)|
    decreases |g|
  {
    if |h| < |g| { TimesGrow(h, g[..|g| - 1], ip); } else { assert h == g; }
  }

  /** When only the locked address tries, its refused attempts leave no trace in
      the record at all. */
  lemma {:induction false} RefusedLeaveNoTrace(h: seq<Failure>, ip: U32, now: U32, tries: seq<Try>)
    requires Clocked(h) && NotBefore(h, now) && LockedIn(Run(h), ip, now)
    requires forall k :: 0 <= k < |tries| ==> tries[k].ip == ip && tries[k].asked >= now
    requires forall k :: 0 <= k < |tries| ==> tries[k].asked < LockEnd(h, ip)
    ensures GatedRun(h, tries) == h
  {
    hide Run, LockedIn, Tracked;
    if tries != [] {
      var init, a := tries[..|tries| - 1], tries[|tries| - 1];
      assert forall k :: 0 <= k < |init| ==> init[k] == tries[k];
      RefusedLeaveNoTrace(h, ip, now, init);
      LockEnds(h, ip, now, a.asked);
    }
  }

  // ---- Bad credentials do lock ---------------------------------------------

  /** The k-th attempt showed a bad credential while its address was not locked. */
  predicate BadUnlocked(tries: seq<Try>, k: nat, ip: U32)
    requires k < |tries|
  {
    var a := tries[k];
    a.ip == ip && !a.good && !LockedIn(Run(GatedRun([], tries[..k])), ip, a.asked)
  }

  predicate Indices(ks: seq<nat>, size: nat) {
    (forall i :: 0 <= i < |ks| ==> ks[i] < size) && forall i, j :: 0 <= i < j < |ks| ==> ks[i] < ks[j]
  }

  /** Every one of them counts as a failure as long as it is recent. */
  lemma {:induction false} BadAreCounted(tries: seq<Try>, ip: U32, later: U32, ks: seq<nat>, m: nat)
    requires m <= |tries| && Indices(ks, m)
    requires forall i :: 0 <= i < |ks| ==> BadUnlocked(tries, ks[i], ip) && later - tries[ks[i]].recorded < WINDOW
    ensures RecentFailures(GatedRun([], tries[..m]), ip, later) >= |ks|
    decreases m
  {
    hide Run, LockedIn, GatedRun, RecentFailures, BadUnlocked;
    if m > 0 {
      RunNext(tries, m - 1);
      var h := GatedRun([], tries[..m - 1]);
      TryCounts(h, tries[m - 1], ip, later);
      if ks != [] && ks[|ks| - 1] == m - 1 {
        BadAreCounted(tries, ip, later, ks[..|ks| - 1], m - 1);
        BadIs(tries, m - 1, ip);
      } else {
        BadAreCounted(tries, ip, later, ks, m - 1);
      }
    }
  }

  lemma RunNext(tries: seq<Try>, m: nat)
    requires m < |tries|
    ensures GatedRun([], tries[..m + 1]) == Gated(GatedRun([], tries[..m]), tries[m])
  {
    hide Gated;
    assert tries[..m + 1][..m] == tries[..m] && tries[..m + 1][m] == tries[m];
  }

  lemma BadIs(tries: seq<Try>, k: nat, ip: U32)
    requires k < |tries| && BadUnlocked(tries, k, ip)
    ensures var a := tries[k]; a.ip == ip && !a.good && !LockedIn(Run(GatedRun([], tries[..k])), ip, a.asked)
  {
  }

  /** One attempt adds its failure to the count, if it records one, or nothing. */
  lemma {:induction false} TryCounts(h: seq<Failure>, a: Try, ip: U32, later: U32)
    ensures var n := RecentFailures(h, ip, later);
            RecentFailures(Gated(h, a), ip, later) ==
            if a.ip == ip && !a.good && !LockedIn(Run(h), ip, a.asked) && later - a.recorded < WINDOW then n + 1 else n
  {
    hide Run, LockedIn;
    var g := h + [Failure(a.ip, a.recorded)];
    assert g[..|h|] == h;
  }

  /** With at most eight failing addresses: after five bad credentials of one address,
      each shown while it was not locked, the address is locked until the first of
      them is 60 000 ms old. */
  lemma {:induction false} FiveBadTriesLock(tries: seq<Try>, ip: U32, ks: seq<nat>, later: U32)
    requires TriesClocked(tries) && |Addresses(GatedRun([], tries))| <= 8
    requires |ks| == 5 && Indices(ks, |tries|) && forall i :: 0 <= i < 5 ==> BadUnlocked(tries, ks[i], ip)
    requires LastClock(tries, 1) <= later < tries[ks[0]].recorded + 60_000
    ensures LockedIn(Run(GatedRun([], tries)), ip, later)
  {
    hide Run, LockedIn, Addresses, GatedRun, RecentFailures, BadUnlocked;
    forall i | 0 <= i < 5
      ensures later - tries[ks[i]].recorded < WINDOW
    {
      if i > 0 { assert tries[ks[0]].recorded <= tries[ks[i]].asked; }
    }
    BadAreCounted(tries, ip, later, ks, |tries|);
    assert tries[..|tries|] == tries;
    GatedRunGrows([], 1, tries);
    LaterStill(GatedRun([], tries), LastClock(tries, 1), later);
    LimiterRefinesHistory(GatedRun([], tries), ip, later);
  }

  /** So the next attempt of the address is refused, however good its credential. */
  lemma {:induction false} SixthIsRefused(tries: seq<Try>, ip: U32, ks: seq<nat>, a: Try)
    requires forall k :: 0 <= k < |tries| ==> 1 <= tries[k].asked <= tries[k].recorded <= a.asked <= a.recorded
    requires a.asked >= 1 && forall j, k :: 0 <= j < k < |tries| ==> tries[j].recorded <= tries[k].asked
    requires var h := GatedRun([], tries); |set k | 0 <= k < |h| :: h[k].ip| <= 8 && a.ip == ip
    requires |ks| == 5 && (forall i :: 0 <= i < 5 ==> ks[i] < |tries|)
    requires forall i, j :: 0 <= i < j < 5 ==> ks[i] < ks[j]
    requires forall i :: 0 <= i < 5 ==>
               var k := ks[i];
               tries[k].ip == ip && !tries[k].good && !LockedIn(Run(GatedRun([], tries[..k])), ip, tries[k].asked)
    requires a.asked < tries[ks[0]].recorded + 60_000
    ensures LockedIn(Run(GatedRun([], tries)), ip, a.asked) && GatedRun([], tries + [a]) == GatedRun([], tries)
  {
    hide Run, LockedIn;
    var all := tries + [a];
    assert forall i :: 0 <= i < 5 ==> BadUnlocked(tries, ks[i], ip);
    assert forall k :: 0 <= k < |tries| ==> all[k] == tries[k];
    assert all[..|tries|] == tries && all[|tries|] == a;
    FiveBadTriesLock(tries, ip, ks, a.asked);
  }
}
