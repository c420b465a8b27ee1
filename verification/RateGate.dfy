// mqtt_rate_allow of main/log_ring.cpp: a cap of 50 publishes a second kept by an
// 8-bit counter that starts anew with every second of the clock.
module RateGate {
  import opened Bytes

  const RATE_CAP: nat := 50
  const SECOND: nat := 1_000_000

  /** How many of the last calls were made in second `s`, without another second
      in between; `secs` are the seconds of all calls. */
  function Streak(secs: seq<U32>, s: U32): nat {
    if secs == [] || secs[|secs| - 1] != s then 0 else 1 + Streak(secs[..|secs| - 1], s)
  }

  class Gate {
    var count: nat
    var epoch: U32
    ghost var secs: seq<U32>

    ghost predicate Valid()
      reads this
    {
      count == Streak(secs, epoch) % 0x100 && (secs != [] ==> secs[|secs| - 1] == epoch)
    }

    constructor ()
      ensures Valid() && secs == [] && epoch == 0
    {
      count, epoch, secs := 0, 0, [];
    }

    /** One call in second `now`: it passes by the number of calls made in that
        second since it began, modulo 256. */
    method Allow(now: U32) returns (r: bool)
      requires Valid()
      modifies this
      ensures Valid() && epoch == now && secs == old(secs) + [now]
      ensures r <==> Passes(Streak(old(secs), now))
    {
      if epoch != now {
        epoch, count, secs := now, 1, secs + [now];
        return true;
      }
      var c := count;
      count := (count + 1) % 0x100;
      secs := secs + [now];
      return c < RATE_CAP;
    }
  }

  /** The call that finds `before` earlier ones in its second is let through. */
  predicate Passes(before: nat) {
    before % 0x100 < RATE_CAP
  }

  /** How many of the first `k` calls of a second are let through. */
  function Allowed(k: nat): nat {
    if k == 0 then 0 else Allowed(k - 1) + if Passes(k - 1) then 1 else 0
  }

  lemma {:induction false} AllowedExactly(k: nat)
    ensures Allowed(k) == 50 * (k / 0x100) + Min(50, k % 0x100)
  {
    if k > 0 {
      AllowedExactly(k - 1);
      NextQuotient(k - 1);
    }
  }

  lemma NextQuotient(n: nat)
    ensures if n % 0x100 == 0xFF then (n + 1) / 0x100 == n / 0x100 + 1 && (n + 1) % 0x100 == 0
            else (n + 1) / 0x100 == n / 0x100 && (n + 1) % 0x100 == n % 0x100 + 1
  {
  }

  /** In one second of the clock the cap holds exactly up to 256 calls. */
  lemma {:induction false} CapHoldsExactly(k: nat)
    ensures Allowed(k) <= RATE_CAP <==> k <= 256
  {
    AllowedExactly(k);
  }

  // ---- Any second ----------------------------------------------------------

  /** Call times in microseconds, as the clock gives them. */
  predicate Clocked(times: seq<nat>) {
    forall j, k :: 0 <= j < k < |times| ==> times[j] <= times[k]
  }

  /** How many calls were made from `lo` up to, not including, `hi`. */
  function Calls(times: seq<nat>, lo: nat, hi: nat): nat {
    if times == [] then 0
    else Calls(times[..|times| - 1], lo, hi) + if lo <= times[|times| - 1] < hi then 1 else 0
  }

  /** The calls made in the same second of the clock as a call at `u`. */
  function SameSecond(times: seq<nat>, u: nat): nat {
    Calls(times, u / SECOND * SECOND, u / SECOND * SECOND + SECOND)
  }

  /** How many of the calls from `lo` up to `hi` were let through. */
  function Passed(times: seq<nat>, lo: nat, hi: nat): nat {
    if times == [] then 0
    else
      var init, u := times[..|times| - 1], times[|times| - 1];
      Passed(init, lo, hi) + if lo <= u < hi && Passes(SameSecond(init, u)) then 1 else 0
  }

  function Seconds(times: seq<nat>): seq<U32>
    requires forall k :: 0 <= k < |times| ==> times[k] / SECOND < 0x1_0000_0000
  {
    seq(|times|, k requires 0 <= k < |times| => times[k] / SECOND)
  }

  /** What the gate counts before a call at `u` are the calls of that second. */
  lemma {:induction false} SecondsCounted(times: seq<nat>, u: nat)
    requires Clocked(times) && forall k :: 0 <= k < |times| ==> times[k] <= u
    requires u / SECOND < 0x1_0000_0000 && forall k :: 0 <= k < |times| ==> times[k] / SECOND < 0x1_0000_0000
    ensures Streak(Seconds(times), u / SECOND) == SameSecond(times, u)
  {
    var lo := u / SECOND * SECOND;
    if times != [] {
      var init, v := times[..|times| - 1], times[|times| - 1];
      assert Seconds(times)[..|times| - 1] == Seconds(init);
      if v / SECOND == u / SECOND {
        SecondsCounted(init, u);
      } else {
        assert v < lo;
        forall k | 0 <= k < |init|
          ensures init[k] < lo
        {
          assert times[k] <= times[|times| - 1];
        }
        NoneFrom(init, lo, lo + SECOND);
      }
    }
  }

  lemma {:induction false} NoneFrom(times: seq<nat>, lo: nat, hi: nat)
    requires forall k :: 0 <= k < |times| ==> times[k] < lo
    ensures Calls(times, lo, hi) == 0
  {
    if times != [] { NoneFrom(times[..|times| - 1], lo, hi); }
  }

  lemma {:induction false} CallsUpTo(times: seq<nat>, lo: nat, hi: nat, end: nat)
    requires hi <= end && forall k :: 0 <= k < |times| ==> times[k] < hi
    ensures Calls(times, lo, end) == Calls(times, lo, hi)
  {
    if times != [] { CallsUpTo(times[..|times| - 1], lo, hi, end); }
  }

  /** Within one second of the clock: the calls let through from `lo` to `hi` are
      those of the second's first calls up to `hi`, without those before `lo`. */
  lemma {:induction false} PassedInSecond(times: seq<nat>, s: nat, lo: nat, hi: nat)
    requires Clocked(times) && s * SECOND <= lo <= hi <= s * SECOND + SECOND
    ensures Passed(times, lo, hi) == Allowed(Calls(times, s * SECOND, hi)) - Allowed(Calls(times, s * SECOND, lo))
  {
    hide Allowed, Passes;
    if times != [] {
      var init, u := times[..|times| - 1], times[|times| - 1];
      var start := s * SECOND;
      PassedInSecond(init, s, lo, hi);
      if start <= u < hi {
        assert times == init + [u];
        if u < lo {
          Below(init, u, lo);
          CallsUpTo(init, start, lo, hi);
        } else {
          Below(init, u, hi);
          CallsUpTo(init, start, hi, start + SECOND);
          AllowedNext(Calls(init, start, hi));
        }
      }
    }
  }

  lemma AllowedNext(k: nat)
    ensures Allowed(k + 1) == Allowed(k) + if Passes(k) then 1 else 0
  {
  }

  lemma Below(init: seq<nat>, u: nat, end: nat)
    requires Clocked(init + [u]) && u < end
    ensures forall k :: 0 <= k < |init| ==> init[k] < end
  {
    var all := init + [u];
    forall k | 0 <= k < |init|
      ensures init[k] < end
    {
      assert all[k] == init[k] && all[|init|] == u;
    }
  }

  lemma {:induction false} PassedSplit(times: seq<nat>, lo: nat, mid: nat, hi: nat)
    requires lo <= mid <= hi
    ensures Passed(times, lo, hi) == Passed(times, lo, mid) + Passed(times, mid, hi)
  {
    if times != [] { PassedSplit(times[..|times| - 1], lo, mid, hi); }
  }

  /** What is let through in the second that starts at `t`, from the call times
      alone. */
  function RollingLoad(times: seq<nat>, t: nat): int {
    var start := t / SECOND * SECOND;
    var next := start + SECOND;
    Allowed(Calls(times, start, next)) - Allowed(Calls(times, start, t)) + Allowed(Calls(times, next, t + SECOND))
  }

  /** What was let through in that second. */
  function Rolling(times: seq<nat>, t: nat): nat {
    Passed(times, t, t + SECOND)
  }

  lemma {:induction false} RollingExactly(times: seq<nat>, t: nat)
    requires forall j, k :: 0 <= j < k < |times| ==> times[j] <= times[k]
    ensures Rolling(times, t) == RollingLoad(times, t)
  {
    hide Calls, Passed, Allowed;
    var s := t / SECOND;
    PassedSplit(times, t, s * SECOND + SECOND, t + SECOND);
    PassedInSecond(times, s, t, s * SECOND + SECOND);
    PassedInSecond(times, s + 1, (s + 1) * SECOND, t + SECOND);
    NoCalls(times, (s + 1) * SECOND);
  }

  lemma {:induction false} NoCalls(times: seq<nat>, at: nat)
    ensures Calls(times, at, at) == 0 && Allowed(Calls(times, at, at)) == 0
  {
    if times != [] { NoCalls(times[..|times| - 1], at); }
  }

  /** With at most 256 calls in every second of the clock, no second at all lets
      more than 100 through. */
  lemma {:induction false} RollingBound(times: seq<nat>, t: nat)
    requires forall j, k :: 0 <= j < k < |times| ==> times[j] <= times[k]
    requires forall s: nat :: Calls(times, s * SECOND, s * SECOND + SECOND) <= 256
    ensures Rolling(times, t) <= 2 * RATE_CAP
  {
    hide Calls, Passed, Allowed;
    var s := t / SECOND;
    RollingExactly(times, t);
    CapHoldsExactly(Calls(times, s * SECOND, s * SECOND + SECOND));
    CapHoldsExactly(Calls(times, (s + 1) * SECOND, t + SECOND));
    CallsGrow(times, (s + 1) * SECOND, t + SECOND, (s + 1) * SECOND + SECOND);
  }

  lemma {:induction false} CallsGrow(times: seq<nat>, lo: nat, mid: nat, hi: nat)
    requires mid <= hi
    ensures Calls(times, lo, mid) <= Calls(times, lo, hi)
  {
    if times != [] { CallsGrow(times[..|times| - 1], lo, mid, hi); }
  }

  /** The cap of the comment, over every rolling second, is kept if and only if no
      second's load exceeds it. */
  lemma {:induction false} RollingCapExactly(times: seq<nat>)
    requires forall j, k :: 0 <= j < k < |times| ==> times[j] <= times[k]
    ensures (forall t: nat :: Rolling(times, t) <= RATE_CAP) <==>
            (forall t: nat :: RollingLoad(times, t) <= RATE_CAP)
  {
    hide Rolling, RollingLoad;
    forall t: nat
      ensures Rolling(times, t) == RollingLoad(times, t)
    {
      RollingExactly(times, t);
    }
  }

  /** 50 calls at the end of one second of the clock and 50 at the start of the
      next: one rolling second lets 100 through. */
  function TwoBursts(): seq<nat> {
    seq(50, _ => 999_999) + seq(50, _ => 1_000_000)
  }

  lemma BurstsPass()
    ensures Clocked(TwoBursts()) && Rolling(TwoBursts(), 999_999) == 100
  {
    hide Calls, Passed, Allowed;
    var times := TwoBursts();
    RollingExactly(times, 999_999);
    BurstCalls(0, 1_000_000);
    BurstCalls(0, 999_999);
    BurstCalls(1_000_000, 1_999_999);
    AllowedExactly(50);
    AllowedExactly(0);
  }

  lemma {:induction false} BurstCalls(lo: nat, hi: nat)
    ensures Calls(TwoBursts(), lo, hi) ==
            (if lo <= 999_999 < hi then 50 else 0) + (if lo <= 1_000_000 < hi then 50 else 0)
  {
    hide Calls;
    CallsOfBurst([], 999_999, 50, lo, hi);
    CallsOfBurst(seq(50, _ => 999_999), 1_000_000, 50, lo, hi);
    assert [] + seq(50, _ => 999_999) == seq(50, _ => 999_999);
    NoCallsAtAll(lo, hi);
  }

  lemma {:induction false} NoCallsAtAll(lo: nat, hi: nat)
    ensures Calls([], lo, hi) == 0
  {
  }

  lemma {:induction false} CallsOfBurst(times: seq<nat>, u: nat, n: nat, lo: nat, hi: nat)
    ensures Calls(times + seq(n, _ => u), lo, hi) == Calls(times, lo, hi) + if lo <= u < hi then n else 0
  {
    var all := times + seq(n, _ => u);
    if n == 0 {
      assert all == times;
    } else {
      CallsOfBurst(times, u, n - 1, lo, hi);
      assert all[..|all| - 1] == times + seq(n - 1, _ => u);
    }
  }
}
