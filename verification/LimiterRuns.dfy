// The limiter of main/auth.cpp over whole histories: what its eight buckets
// remember, when an address is forgotten, and when it is locked.
module LimiterRuns {
  import opened Bytes
  import opened Limiter

  lemma {:induction false} RunStep(h: seq<Failure>, f: Failure)
    ensures Run(h + [f]) == Record(Run(h), f.ip, f.t)
    ensures Times(h + [f], f.ip) == Times(h, f.ip) + [f.t]
    ensures forall ip: U32 :: ip != f.ip ==> Times(h + [f], ip) == Times(h, ip)
    ensures forall ip: U32 :: Tracked(h + [f], ip) ==
              if f.ip == ip then Tracked(h, ip) + [f.t] else if Evicts(Run(h), f.ip, ip) then [] else Tracked(h, ip)
  {
    hide Record, Evicts;
    var all := h + [f];
    assert all[..|all| - 1] == h;
    forall ip: U32 | ip != f.ip
      ensures Times(all, ip) == Times(h, ip)
    {
      assert Times(h, ip) + [] == Times(h, ip);
    }
  }

  /** At most one used bucket per address; each bucket holds the last five of the
      times tracked for its address, and nothing is tracked without a bucket. */
  ghost predicate Faithful(h: seq<Failure>) {
    var s := Run(h);
    && (forall i, j :: 0 <= i < j < BUCKETS && s[i].lastUse != 0 && s[j].lastUse != 0 ==> s[i].ip != s[j].ip)
    && (forall i :: 0 <= i < BUCKETS && s[i].lastUse != 0 ==> Rings(s[i], Tracked(h, s[i].ip)))
    && (forall ip: U32 :: FindFrom(s, ip, 0) < 0 ==> Tracked(h, ip) == [])
  }

  lemma FaithfulStart()
    ensures Faithful([])
  {
  }

  lemma {:induction false} KnownPeer(h: seq<Failure>, f: Failure)
    requires Faithful(h) && f.t > 0 && FindFrom(Run(h), f.ip, 0) >= 0
    ensures Faithful(h + [f])
  {
    hide Rings, Run, Tracked, Times;
    var s, h' := Run(h), h + [f];
    var i := FindFrom(s, f.ip, 0);
    RunStep(h, f);
    EnterRings(s[i], Tracked(h, f.ip), f.t);
    var s' := Run(h');
    assert s'[i].ip == f.ip && forall k :: 0 <= k < BUCKETS && k != i ==> s'[k] == s[k];
    forall ip: U32 | FindFrom(s', ip, 0) < 0
      ensures Tracked(h', ip) == []
    {
      assert ip != f.ip by { assert Owns(s'[i], f.ip); }
    }
  }

  lemma {:induction false} NewPeer(h: seq<Failure>, f: Failure)
    requires Faithful(h) && f.t > 0 && FindFrom(Run(h), f.ip, 0) < 0
    ensures Faithful(h + [f])
  {
    hide Rings, Run, Tracked, Times;
    var s, h' := Run(h), h + [f];
    var v := OldestAmong(s, BUCKETS);
    RunStep(h, f);
    FirstRings(f.ip, f.t);
    assert [] + [f.t] == [f.t];
    var s' := Run(h');
    assert s'[v] == Entered(FREE.(ip := f.ip), f.t) && forall k :: 0 <= k < BUCKETS && k != v ==> s'[k] == s[k];
    assert forall k :: 0 <= k < BUCKETS ==> !Owns(s[k], f.ip);
    forall i | 0 <= i < BUCKETS && s'[i].lastUse != 0
      ensures Rings(s'[i], Tracked(h', s'[i].ip))
    {
      if i != v {
        assert !Evicts(s, f.ip, s[i].ip);
      }
    }
    forall ip: U32 | FindFrom(s', ip, 0) < 0
      ensures Tracked(h', ip) == []
    {
      assert ip != f.ip by { assert Owns(s'[v], f.ip); }
    }
  }

  lemma {:induction false} AlwaysFaithful(h: seq<Failure>)
    requires Clocked(h)
    ensures Faithful(h)
  {
    hide Faithful, Run;
    if h == [] {
      FaithfulStart();
    } else {
      var init, f := h[..|h| - 1], h[|h| - 1];
      AlwaysFaithful(init);
      assert init + [f] == h;
      if FindFrom(Run(init), f.ip, 0) >= 0 { KnownPeer(init, f); } else { NewPeer(init, f); }
    }
  }

  lemma {:induction false} TimesAscend(h: seq<Failure>, ip: U32)
    requires Clocked(h)
    ensures Ascending(Times(h, ip))
    ensures Times(h, ip) != [] ==> h != [] && Times(h, ip)[|Times(h, ip)| - 1] <= h[|h| - 1].t
  {
    if h != [] {
      TimesAscend(h[..|h| - 1], ip);
    }
  }

  /** What is tracked is the latter part of the full history of the address. */
  lemma {:induction false} TrackedIsSuffix(h: seq<Failure>, ip: U32)
    ensures |Tracked(h, ip)| <= |Times(h, ip)|
    ensures Tracked(h, ip) == Times(h, ip)[|Times(h, ip)| - |Tracked(h, ip)|..]
  {
    hide Run, Evicts;
    if h != [] {
      var init, f := h[..|h| - 1], h[|h| - 1];
      TrackedIsSuffix(init, ip);
      var T, U := Tracked(init, ip), Times(init, ip);
      if f.ip == ip {
        assert (U + [f.t])[|U| - |T|..] == U[|U| - |T|..] + [f.t];
      } else {
        assert U + [] == U;
        assert U[|U|..] == [];
      }
    }
  }

  // ---- When an address is locked -------------------------------------------

  /** locked() in terms of the tracked times, for any number of addresses: the
      fifth-last failure is less than a minute old. */
  lemma {:induction false} LockedExactly(h: seq<Failure>, ip: U32, now: U32)
    requires Clocked(h) && NotBefore(h, now)
    ensures var T := Tracked(h, ip);
            LockedIn(Run(h), ip, now) <==> |T| >= LIMIT && now - T[|T| - LIMIT] < WINDOW
  {
    hide Rings, Run, Times, Tracked, RecentIn;
    AlwaysFaithful(h);
    TrackedIsSuffix(h, ip);
    TimesAscend(h, ip);
    var s, T := Run(h), Tracked(h, ip);
    var i := FindFrom(s, ip, 0);
    if i >= 0 {
      RingsSlots(s[i], T);
      var U := Times(h, ip);
      assert T[|T| - 1] == U[|U| - 1];
      RingLocks(s[i], T, now);
    }
  }

  /** How many failures of the address are less than a minute old. */
  function RecentFailures(h: seq<Failure>, ip: U32, now: U32): nat {
    if h == [] then 0
    else RecentFailures(h[..|h| - 1], ip, now) + if h[|h| - 1].ip == ip && now - h[|h| - 1].t < WINDOW then 1 else 0
  }

  function RecentTimes(T: seq<U32>, now: U32): nat {
    if T == [] then 0 else RecentTimes(T[..|T| - 1], now) + if now - T[|T| - 1] < WINDOW then 1 else 0
  }

  lemma {:induction false} RecentOfTimes(h: seq<Failure>, ip: U32, now: U32)
    ensures RecentFailures(h, ip, now) == RecentTimes(Times(h, ip), now)
  {
    if h != [] {
      var init, f := h[..|h| - 1], h[|h| - 1];
      RecentOfTimes(init, ip, now);
      var U := Times(init, ip);
      if f.ip == ip {
        assert (U + [f.t])[..|U|] == U;
      } else {
        assert U + [] == U;
      }
    }
  }

  /** In ascending times at least n are recent exactly when the n-th last is. */
  lemma {:induction false} RecentAscending(T: seq<U32>, now: U32, n: nat)
    requires Ascending(T) && n > 0
    ensures RecentTimes(T, now) >= n <==> |T| >= n && now - T[|T| - n] < WINDOW
  {
    if T != [] {
      var init := T[..|T| - 1];
      assert Ascending(init) by { assert forall k :: 0 <= k < |init| ==> init[k] == T[k]; }
      RecentAscending(init, now, n);
      if n > 1 {
        RecentAscending(init, now, n - 1);
        assert |T| >= n ==> init[|init| - (n - 1)] == T[|T| - n];
      } else {
        assert now - T[|T| - 1] < WINDOW || RecentTimes(init, now) == 0 by {
          if now - T[|T| - 1] >= WINDOW && |init| > 0 { assert init[|init| - 1] <= T[|T| - 1]; }
        }
      }
      if |init| >= n { assert init[|init| - n] == T[|T| - 1 - n] <= T[|T| - n]; }
    }
  }

  /** The limiter never locks without cause: five failures of that very address
      lie in the last minute. */
  lemma {:induction false} LockedMeansFiveRecent(h: seq<Failure>, ip: U32, now: U32)
    requires Clocked(h) && NotBefore(h, now) && LockedIn(Run(h), ip, now)
    ensures RecentFailures(h, ip, now) >= LIMIT
  {
    hide Run, LockedIn, Tracked, Times, RecentTimes;
    LockedExactly(h, ip, now);
    TrackedIsSuffix(h, ip);
    TimesAscend(h, ip);
    RecentOfTimes(h, ip, now);
    RecentAscending(Times(h, ip), now, LIMIT);
    var T, U := Tracked(h, ip), Times(h, ip);
    assert T[|T| - LIMIT] == U[|U| - LIMIT];
  }

  // ---- When an address is forgotten ----------------------------------------

  ghost predicate FailedSince(h: seq<Failure>, ip: U32, t: int) {
    exists k :: 0 <= k < |h| && h[k].ip == ip && h[k].t >= t
  }

  predicate Distinct(s: seq<U32>) {
    forall i, j :: 0 <= i < j < |s| ==> s[i] != s[j]
  }

  /** Eight other distinct addresses have failed at or after time `t`. */
  ghost predicate Crowded(h: seq<Failure>, ip: U32, t: int) {
    exists others: seq<U32> :: |others| == BUCKETS && Distinct(others) && ip !in others &&
      forall k :: 0 <= k < BUCKETS ==> FailedSince(h, others[k], t)
  }

  lemma FailedStays(h: seq<Failure>, f: Failure, ip: U32, t: int)
    requires FailedSince(h, ip, t)
    ensures FailedSince(h + [f], ip, t)
  {
    var k :| 0 <= k < |h| && h[k].ip == ip && h[k].t >= t;
    assert (h + [f])[k] == h[k];
  }

  lemma CrowdedStays(h: seq<Failure>, f: Failure, ip: U32, t: int)
    requires Crowded(h, ip, t)
    ensures Crowded(h + [f], ip, t)
  {
    hide FailedSince, Distinct;
    var others: seq<U32> :| |others| == BUCKETS && Distinct(others) && ip !in others &&
      forall k :: 0 <= k < BUCKETS ==> FailedSince(h, others[k], t);
    forall k | 0 <= k < BUCKETS
      ensures FailedSince(h + [f], others[k], t)
    {
      FailedStays(h, f, others[k], t);
    }
  }

  lemma {:induction false} LastTimeFailed(h: seq<Failure>, ip: U32)
    requires Times(h, ip) != []
    ensures FailedSince(h, ip, Times(h, ip)[|Times(h, ip)| - 1])
  {
    var init, f := h[..|h| - 1], h[|h| - 1];
    if f.ip == ip {
      assert h[|h| - 1].ip == ip;
    } else {
      assert Times(init, ip) + [] == Times(init, ip);
      LastTimeFailed(init, ip);
      FailedStays(init, f, ip, Times(h, ip)[|Times(h, ip)| - 1]);
      assert init + [f] == h;
    }
  }

  /** The time of a used bucket is the last failure of its address. */
  lemma {:induction false} BucketTime(h: seq<Failure>, i: nat)
    requires Faithful(h) && i < BUCKETS && Run(h)[i].lastUse != 0
    ensures FailedSince(h, Run(h)[i].ip, Run(h)[i].lastUse)
    ensures var U := Times(h, Run(h)[i].ip); U != [] && U[|U| - 1] == Run(h)[i].lastUse
  {
    hide Rings, Run, Times, Tracked, FailedSince;
    var b := Run(h)[i];
    var T, U := Tracked(h, b.ip), Times(h, b.ip);
    RingsSlots(b, T);
    TrackedIsSuffix(h, b.ip);
    assert T[|T| - 1] == U[|U| - 1];
    LastTimeFailed(h, b.ip);
  }

  /** An address is thrown out only in a crowd. */
  lemma {:induction false} EvictionNeedsACrowd(h: seq<Failure>, f: Failure, ip: U32)
    requires Clocked(h + [f]) && Faithful(h) && Evicts(Run(h), f.ip, ip)
    ensures var U := Times(h, ip); U != [] && Crowded(h + [f], ip, U[|U| - 1])
  {
    hide Rings, Run, Times, Tracked, FailedSince;
    var s := Run(h);
    var v := OldestAmong(s, BUCKETS);
    var t := s[v].lastUse;
    assert forall i :: 0 <= i < BUCKETS ==> s[i].lastUse >= t > 0;
    assert forall i :: 0 <= i < BUCKETS ==> !Owns(s[i], f.ip);
    BucketTime(h, v);
    var others: seq<U32> := seq(BUCKETS, i requires 0 <= i < BUCKETS => if i == v then f.ip else s[i].ip);
    forall k | 0 <= k < BUCKETS
      ensures FailedSince(h + [f], others[k], t)
    {
      if k == v {
        NewestFailed(h, f, t, v);
      } else {
        BucketTime(h, k);
        Weaken(h, s[k].ip, s[k].lastUse, t);
        FailedStays(h, f, s[k].ip, t);
      }
    }
    assert Distinct(others);
    assert ip !in others;
  }

  lemma Weaken(h: seq<Failure>, ip: U32, t: int, u: int)
    requires FailedSince(h, ip, t) && u <= t
    ensures FailedSince(h, ip, u)
  {
    var k :| 0 <= k < |h| && h[k].ip == ip && h[k].t >= t;
    assert h[k].t >= u;
  }

  lemma {:induction false} NewestFailed(h: seq<Failure>, f: Failure, t: int, v: nat)
    requires Clocked(h + [f]) && v < BUCKETS && Faithful(h) && Run(h)[v].lastUse != 0 && t == Run(h)[v].lastUse
    ensures FailedSince(h + [f], f.ip, t)
  {
    hide Rings, Run, Times, Tracked;
    BucketTime(h, v);
    var all := h + [f];
    var k :| 0 <= k < |h| && h[k].ip == Run(h)[v].ip && h[k].t >= t;
    assert all[k] == h[k] && all[|h|] == f;
  }

  /** Least-recently-used forgetting: whatever failure of an address the table no
      longer tracks, eight other distinct addresses have failed since then. */
  lemma {:induction false} ForgottenOnlyInACrowd(h: seq<Failure>, ip: U32)
    requires Clocked(h) && |Tracked(h, ip)| < |Times(h, ip)|
    ensures Crowded(h, ip, Times(h, ip)[|Times(h, ip)| - |Tracked(h, ip)| - 1])
  {
    hide Run, Crowded, Evicts, Times, Tracked, Clocked;
    if h == [] {
      NoTimes(ip);
    } else {
      var init, f := h[..|h| - 1], h[|h| - 1];
      assert init + [f] == h;
      ClockedInit(h);
      RunStep(init, f);
      var T, U := Tracked(init, ip), Times(init, ip);
      if f.ip != ip && Evicts(Run(init), f.ip, ip) {
        AlwaysFaithful(init);
        EvictionNeedsACrowd(init, f, ip);
      } else {
        assert |Times(h, ip)| - |Tracked(h, ip)| == |U| - |T|;
        ForgottenOnlyInACrowd(init, ip);
        CrowdedStays(init, f, ip, U[|U| - |T| - 1]);
      }
    }
  }

  lemma ClockedInit(h: seq<Failure>)
    requires Clocked(h) && h != []
    ensures Clocked(h[..|h| - 1])
  {
    assert forall k :: 0 <= k < |h| - 1 ==> h[..|h| - 1][k] == h[k];
  }

  lemma {:induction false} NoTimes(ip: U32)
    ensures Times([], ip) == [] && Tracked([], ip) == []
  {
  }

  // ---- At most eight addresses ---------------------------------------------

  function Addresses(h: seq<Failure>): set<U32> {
    set k | 0 <= k < |h| :: h[k].ip
  }

  lemma {:induction false} DistinctSize(s: seq<U32>, a: set<U32>)
    requires Distinct(s) && forall k :: 0 <= k < |s| ==> s[k] in a
    ensures |s| <= |a|
  {
    if s != [] {
      var init, last := s[..|s| - 1], s[|s| - 1];
      assert forall k :: 0 <= k < |init| ==> init[k] == s[k] && init[k] in a - {last};
      DistinctSize(init, a - {last});
    }
  }

  lemma {:induction false} CrowdIsNine(h: seq<Failure>, ip: U32, t: int)
    requires Crowded(h, ip, t) && Times(h, ip) != []
    ensures |Addresses(h)| > BUCKETS
  {
    hide Distinct, Times, Addresses;
    var others: seq<U32> :| |others| == BUCKETS && Distinct(others) && ip !in others &&
      forall k :: 0 <= k < BUCKETS ==> FailedSince(h, others[k], t);
    var nine := others + [ip];
    LastTimeFailed(h, ip);
    forall k | 0 <= k < |nine|
      ensures nine[k] in Addresses(h)
    {
      if k < BUCKETS {
        FailedIsAddress(h, others[k], t);
      } else {
        FailedIsAddress(h, ip, Times(h, ip)[|Times(h, ip)| - 1]);
      }
    }
    StillDistinct(others, ip);
    DistinctSize(nine, Addresses(h));
  }

  lemma FailedIsAddress(h: seq<Failure>, ip: U32, t: int)
    requires FailedSince(h, ip, t)
    ensures ip in Addresses(h)
  {
  }

  lemma StillDistinct(s: seq<U32>, x: U32)
    requires Distinct(s) && x !in s
    ensures Distinct(s + [x])
  {
  }

  /** With at most eight addresses nothing is forgotten. */
  lemma {:induction false} NothingForgotten(h: seq<Failure>, ip: U32)
    requires Clocked(h) && |Addresses(h)| <= BUCKETS
    ensures Tracked(h, ip) == Times(h, ip)
  {
    hide Times, Tracked, Crowded, Addresses;
    TrackedIsSuffix(h, ip);
    var T, U := Tracked(h, ip), Times(h, ip);
    if |T| < |U| {
      ForgottenOnlyInACrowd(h, ip);
      CrowdIsNine(h, ip, U[|U| - |T| - 1]);
    } else {
      assert U[0..] == U;
    }
  }

  /** The table remembers failures of at most eight addresses. */
  lemma {:induction false} AtMostEightTracked(h: seq<Failure>, ips: seq<U32>)
    requires Clocked(h) && Distinct(ips) && forall k :: 0 <= k < |ips| ==> Tracked(h, ips[k]) != []
    ensures |ips| <= 8
  {
    hide Run, Tracked, Times, Rings;
    AlwaysFaithful(h);
    var s := Run(h);
    var slots: seq<U32> := seq(|ips|, k requires 0 <= k < |ips| => Bucketed(h, ips[k]));
    forall i, j | 0 <= i < j < |ips|
      ensures slots[i] != slots[j]
    {
      assert Owns(s[slots[i]], ips[i]) && Owns(s[slots[j]], ips[j]);
    }
    DistinctSize(slots, {0, 1, 2, 3, 4, 5, 6, 7});
  }

  function Bucketed(h: seq<Failure>, ip: U32): U32
    requires Faithful(h) && Tracked(h, ip) != []
    ensures Bucketed(h, ip) < BUCKETS && Owns(Run(h)[Bucketed(h, ip)], ip)
  {
    FindFrom(Run(h), ip, 0)
  }

  /** Up to eight addresses the table answers exactly like the full history: five
      or more failures in the last minute. */
  lemma {:induction false} LimiterRefinesHistory(h: seq<Failure>, ip: U32, now: U32)
    requires Clocked(h) && NotBefore(h, now) && |Addresses(h)| <= BUCKETS
    ensures LockedIn(Run(h), ip, now) <==> RecentFailures(h, ip, now) >= LIMIT
  {
    hide Run, LockedIn, Tracked, Times, RecentTimes, Addresses;
    NothingForgotten(h, ip);
    LockedExactly(h, ip, now);
    TimesAscend(h, ip);
    RecentOfTimes(h, ip, now);
    RecentAscending(Times(h, ip), now, LIMIT);
  }

  lemma {:induction false} CountedAreThere(h: seq<Failure>, ip: U32, now: U32, n: nat) returns (ks: seq<nat>)
    requires RecentFailures(h, ip, now) >= n
    ensures |ks| == n && forall i, j :: 0 <= i < j < n ==> ks[i] < ks[j]
    ensures forall i :: 0 <= i < n ==> ks[i] < |h| && h[ks[i]].ip == ip && now - h[ks[i]].t < 60_000
  {
    if n == 0 {
      ks := [];
    } else {
      var init, f := h[..|h| - 1], h[|h| - 1];
      if f.ip == ip && now - f.t < WINDOW {
        ks := CountedAreThere(init, ip, now, n - 1);
        ks := ks + [|h| - 1];
      } else {
        ks := CountedAreThere(init, ip, now, n);
      }
    }
  }

  lemma {:induction false} ThoseThereCount(h: seq<Failure>, ip: U32, now: U32, ks: seq<nat>)
    requires forall i, j :: 0 <= i < j < |ks| ==> ks[i] < ks[j]
    requires forall i :: 0 <= i < |ks| ==> ks[i] < |h| && h[ks[i]].ip == ip && now - h[ks[i]].t < 60_000
    ensures RecentFailures(h, ip, now) >= |ks|
    decreases |h|
  {
    if ks != [] {
      assert ks[|ks| - 1] < |h|;
      var init, last := h[..|h| - 1], ks[|ks| - 1];
      if last == |h| - 1 {
        ThoseThereCount(init, ip, now, ks[..|ks| - 1]);
      } else {
        assert forall i :: 0 <= i < |ks| ==> ks[i] <= last;
        ThoseThereCount(init, ip, now, ks);
      }
    }
  }

  /** The limiter in numbers: with at most eight failing addresses, locked exactly
      when five failures of the address are less than 60 000 ms old. */
  lemma {:induction false} LockedInNumbers(h: seq<Failure>, ip: U32, now: U32)
    requires forall k :: 0 <= k < |h| ==> 0 < h[k].t <= now
    requires now > 0 && forall j, k :: 0 <= j < k < |h| ==> h[j].t <= h[k].t
    requires |set k | 0 <= k < |h| :: h[k].ip| <= 8
    ensures LockedIn(Run(h), ip, now) <==>
            exists ks: seq<nat> :: |ks| == 5 && (forall i, j :: 0 <= i < j < 5 ==> ks[i] < ks[j]) &&
              forall i :: 0 <= i < 5 ==> ks[i] < |h| && h[ks[i]].ip == ip && now - h[ks[i]].t < 60_000
  {
    hide Run, LockedIn, RecentFailures;
    LimiterRefinesHistory(h, ip, now);
    if RecentFailures(h, ip, now) >= 5 {
      var ks := CountedAreThere(h, ip, now, 5);
    }
    if ks: seq<nat> :|
      && |ks| == 5
      && (forall i, j :: 0 <= i < j < 5 ==> ks[i] < ks[j])
      && (forall i :: 0 <= i < 5 ==> ks[i] < |h| && h[ks[i]].ip == ip && now - h[ks[i]].t < 60_000)
    {
      ThoseThereCount(h, ip, now, ks);
    }
  }

  /** With more addresses a lock can be lost, but only to a crowd of eight others
      inside the same minute. */
  lemma {:induction false} MissedLockNeedsACrowd(h: seq<Failure>, ip: U32, now: U32)
    requires Clocked(h) && NotBefore(h, now)
    requires RecentFailures(h, ip, now) >= LIMIT && !LockedIn(Run(h), ip, now)
    ensures exists t: U32 :: now - t < WINDOW && Crowded(h, ip, t)
  {
    hide Run, LockedIn, Tracked, Times, RecentTimes, Crowded;
    LockedExactly(h, ip, now);
    TimesAscend(h, ip);
    RecentOfTimes(h, ip, now);
    RecentAscending(Times(h, ip), now, LIMIT);
    TrackedIsSuffix(h, ip);
    var T, U := Tracked(h, ip), Times(h, ip);
    ForgottenOnlyInACrowd(h, ip);
    var t := U[|U| - |T| - 1];
    assert U[|U| - LIMIT] <= t;
    assert now - t < WINDOW && Crowded(h, ip, t);
  }
}
