// The per-peer failure limiter of main/auth.cpp: eight least-recently-used
// buckets, each with the times of its last five failures, against the plain
// definition over the whole history of failures.
module Limiter {
  import opened Bytes

  const LIMIT: nat := 5
  const WINDOW: nat := 60_000
  const BUCKETS: nat := 8

  datatype RawBucket = Bucket(ip: U32, ts: seq<U32>, head: nat, lastUse: U32)
  type Bucket = b: RawBucket | |b.ts| == LIMIT && b.head < LIMIT witness Bucket(0, [0, 0, 0, 0, 0], 0, 0)

  /** A zeroed bucket; `lastUse` 0 marks it free. */
  const FREE: Bucket := Bucket(0, [0, 0, 0, 0, 0], 0, 0)

  // ---- The table -----------------------------------------------------------

  predicate Owns(b: Bucket, ip: U32) {
    b.lastUse != 0 && b.ip == ip
  }

  /** bucket_find: the first used bucket of the address, -1 if there is none. */
  function FindFrom(s: seq<Bucket>, ip: U32, i: nat): (r: int)
    requires i <= |s|
    ensures r == -1 || (i <= r < |s| && Owns(s[r], ip))
    ensures forall k :: i <= k < (if r < 0 then |s| else r) ==> !Owns(s[k], ip)
    decreases |s| - i
  {
    if i == |s| then -1 else if Owns(s[i], ip) then i else FindFrom(s, ip, i + 1)
  }

  /** The least recently used bucket among the first `n`, the earliest of several. */
  function OldestAmong(s: seq<Bucket>, n: nat): (r: nat)
    requires 0 < n <= |s|
    ensures r < n
    ensures forall k :: 0 <= k < n ==> s[r].lastUse <= s[k].lastUse
    ensures forall k :: 0 <= k < r ==> s[r].lastUse < s[k].lastUse
  {
    if n == 1 then 0
    else
      var r := OldestAmong(s, n - 1);
      if s[n - 1].lastUse < s[r].lastUse then n - 1 else r
  }

  /** A failure entered into a bucket. */
  function Entered(b: Bucket, now: U32): Bucket {
    b.(lastUse := now, ts := b.ts[b.head := now], head := (b.head + 1) % LIMIT)
  }

  type Table = s: seq<Bucket> | |s| == BUCKETS witness seq(BUCKETS, _ => FREE)

  /** The table after record_failure. */
  function Record(s: Table, ip: U32, now: U32): Table {
    var i := FindFrom(s, ip, 0);
    if i >= 0 then s[i := Entered(s[i], now)]
    else
      var v := OldestAmong(s, BUCKETS);
      s[v := Entered(FREE.(ip := ip), now)]
  }

  /** `t` counts as recent: unsigned 32-bit arithmetic, 0 is no time. */
  predicate Recent(t: U32, now: U32) {
    t != 0 && (now - t) % 0x1_0000_0000 < WINDOW
  }

  function RecentIn(ts: seq<U32>, now: U32): nat {
    if ts == [] then 0 else RecentIn(ts[..|ts| - 1], now) + if Recent(ts[|ts| - 1], now) then 1 else 0
  }

  /** locked. */
  predicate LockedIn(s: Table, ip: U32, now: U32) {
    var i := FindFrom(s, ip, 0);
    i >= 0 && RecentIn(s[i].ts, now) >= LIMIT
  }

  // ---- Histories -----------------------------------------------------------

  datatype Failure = Failure(ip: U32, t: U32)

  /** The table after a history of failures. */
  function Run(h: seq<Failure>): Table {
    if h == [] then seq(BUCKETS, _ => FREE)
    else Record(Run(h[..|h| - 1]), h[|h| - 1].ip, h[|h| - 1].t)
  }

  /** The clock never stands at 0 and never runs backwards. */
  predicate Clocked(h: seq<Failure>) {
    (forall k :: 0 <= k < |h| ==> h[k].t > 0) && forall j, k :: 0 <= j < k < |h| ==> h[j].t <= h[k].t
  }

  predicate NotBefore(h: seq<Failure>, now: U32) {
    now > 0 && (h == [] || h[|h| - 1].t <= now)
  }

  /** All failure times of an address. */
  function Times(h: seq<Failure>, ip: U32): seq<U32> {
    if h == [] then []
    else Times(h[..|h| - 1], ip) + if h[|h| - 1].ip == ip then [h[|h| - 1].t] else []
  }

  /** Entering a failure of this address throws `ip` out of the table. */
  predicate Evicts(s: Table, newcomer: U32, ip: U32) {
    FindFrom(s, newcomer, 0) < 0 && Owns(s[OldestAmong(s, BUCKETS)], ip)
  }

  /** The failure times the table has taken in since it last gave the address a
      bucket; empty when it has none. */
  function Tracked(h: seq<Failure>, ip: U32): seq<U32> {
    if h == [] then []
    else
      var init, f := h[..|h| - 1], h[|h| - 1];
      if f.ip == ip then Tracked(init, ip) + [f.t]
      else if Evicts(Run(init), f.ip, ip) then []
      else Tracked(init, ip)
  }

  // ---- One bucket ----------------------------------------------------------

  /** The entry of ring position `j` when the times `T` have gone in. */
  function Slot(T: seq<U32>, j: nat): U32 {
    if T == [] then 0
    else if (|T| - 1) % LIMIT == j then T[|T| - 1]
    else Slot(T[..|T| - 1], j)
  }

  predicate Rings(b: Bucket, T: seq<U32>) {
    && T != [] && b.lastUse == T[|T| - 1]
    && b.head == |T| % LIMIT
    && forall j :: 0 <= j < LIMIT ==> b.ts[j] == Slot(T, j)
  }

  lemma EnterRings(b: Bucket, T: seq<U32>, now: U32)
    requires Rings(b, T)
    ensures Rings(Entered(b, now), T + [now])
  {
    var U := T + [now];
    assert U[..|U| - 1] == T;
  }

  lemma FirstRings(ip: U32, now: U32)
    ensures Rings(Entered(FREE.(ip := ip), now), [now])
  {
    assert [now][..0] == [];
  }

  /** The ring holds the last five times. */
  lemma {:induction false} SlotHolds(T: seq<U32>, i: nat)
    requires i < |T| <= i + LIMIT
    ensures Slot(T, i % LIMIT) == T[i]
  {
    if i < |T| - 1 {
      SlotHolds(T[..|T| - 1], i);
    }
  }

  lemma {:induction false} SlotEmpty(T: seq<U32>, j: nat)
    requires |T| <= j < LIMIT
    ensures Slot(T, j) == 0
  {
    if T != [] { SlotEmpty(T[..|T| - 1], j); }
  }

  predicate Ascending(T: seq<U32>) {
    (forall k :: 0 <= k < |T| ==> T[k] > 0) && forall j, k :: 0 <= j < k < |T| ==> T[j] <= T[k]
  }

  lemma {:induction false} RecentInAll(ts: seq<U32>, now: U32)
    ensures RecentIn(ts, now) <= |ts|
    ensures RecentIn(ts, now) == |ts| <==> forall k :: 0 <= k < |ts| ==> Recent(ts[k], now)
  {
    if ts != [] {
      var init := ts[..|ts| - 1];
      RecentInAll(init, now);
      assert forall k :: 0 <= k < |init| ==> init[k] == ts[k];
    }
  }

  /** A bucket locks exactly when the fifth-last of its times is recent. */
  lemma {:induction false} RingLocks(b: Bucket, T: seq<U32>, now: U32)
    requires Rings(b, T) && Ascending(T) && T[|T| - 1] <= now
    ensures RecentIn(b.ts, now) >= LIMIT <==> |T| >= LIMIT && now - T[|T| - LIMIT] < WINDOW
  {
    hide Rings, Slot;
    RecentInAll(b.ts, now);
    RingsSlots(b, T);
    if |T| < LIMIT {
      SlotEmpty(T, |T|);
    } else {
      var n := |T|;
      forall i | n - LIMIT <= i < n
        ensures b.ts[i % LIMIT] == T[i]
      {
        SlotHolds(T, i);
      }
      var first := n - LIMIT;
      if now - T[first] < WINDOW {
        forall j | 0 <= j < LIMIT
          ensures Recent(b.ts[j], now)
        {
          var i := PositionOf(n, j);
          assert T[first] <= T[i];
        }
      } else {
        assert !Recent(b.ts[first % LIMIT], now);
      }
    }
  }

  lemma {:induction false} RingsSlots(b: Bucket, T: seq<U32>)
    requires Rings(b, T)
    ensures T != [] && b.lastUse == T[|T| - 1]
    ensures forall j :: 0 <= j < LIMIT ==> b.ts[j] == Slot(T, j)
  {
  }

  /** Every ring position belongs to one of the last five entries. */
  lemma PositionOf(n: nat, j: nat) returns (i: nat)
    requires n >= LIMIT && j < LIMIT
    ensures n - LIMIT <= i < n && i % LIMIT == j
  {
    var first := n - LIMIT;
    i := first + (j + LIMIT - first % LIMIT) % LIMIT;
  }
}
