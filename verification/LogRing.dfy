// The in-memory log of main/log_ring.cpp: capture into a ring of 128 lines, and
// the walk over it from the oldest line on.
module LogRing {
  import opened Bytes
  import opened LogText
  import opened LogLine

  const RING_SIZE: nat := 128

  // ---- The ring ------------------------------------------------------------

  /** The last `n` of a sequence, all of it when it is shorter. */
  function Last<T>(s: seq<T>, n: nat): seq<T> {
    if |s| <= n then s else s[|s| - n..]
  }

  class Ring {
    const ring: array<LogEntry>
    var head: nat
    var count: nat
    ghost var captured: seq<LogEntry>

    /** Slot i % 128 holds the i-th line captured, for the last 128 of them, and
        every line fits its field with the NUL. */
    ghost predicate Valid()
      reads this, ring
    {
      && ring.Length == RING_SIZE
      && count == Min(|captured|, RING_SIZE)
      && head == |captured| % RING_SIZE
      && (forall i :: 0 <= i < |captured| ==> |captured[i].line| < LINE_MAX)
      && forall i :: |captured| - count <= i < |captured| ==> ring[i % RING_SIZE] == captured[i]
    }

    constructor ()
      ensures Valid() && captured == [] && fresh(ring)
    {
      ring := new LogEntry[RING_SIZE](_ => LogEntry(0, ""));
      head, count, captured := 0, 0, [];
    }

    /** The critical section of both entry points. */
    method Append(tsUs: U64, line: string)
      requires Valid() && |line| < LINE_MAX
      modifies this, ring
      ensures Valid() && captured == old(captured) + [LogEntry(tsUs, line)]
    {
      var e := LogEntry(tsUs, line);
      ghost var n := |captured|;
      ring[head] := e;
      head := (head + 1) % RING_SIZE;
      if count < RING_SIZE { count := count + 1; }
      captured := captured + [e];
      HeadMoves(n);
      forall i | |captured| - count <= i < |captured|
        ensures ring[i % RING_SIZE] == captured[i]
      {
        if i < n { OtherSlot(i, n); }
      }
    }

    /** log_vprintf: nothing is captured of an empty message. */
    method Vprintf(text: string, tsUs: U64)
      requires Valid()
      modifies this, ring
      ensures Valid()
      ensures captured == if text == [] then old(captured) else old(captured) + [LogEntry(tsUs, CleanLine(text))]
    {
      if text == [] { return; }
      var line := Clean(text);
      Append(tsUs, line);
    }

    /** log_sinks_publish_p4; a null message is `None`. */
    method PublishP4(level: char, tag: Option<string>, msg: Option<string>, ms: nat, tsUs: U64)
      requires Valid()
      modifies this, ring
      ensures Valid()
      ensures captured == if msg.None? then old(captured)
                          else old(captured) + [LogEntry(tsUs, RelayedLine(level, ms, tag, msg.value))]
    {
      if msg.None? { return; }
      Append(tsUs, RelayedLine(level, ms, tag, msg.value));
    }

    function Start(): nat
      reads this
    {
      if count == RING_SIZE then head else 0
    }

    /** The slots from the oldest on, across the wrap. */
    ghost function Walk(): (w: seq<LogEntry>)
      requires Valid()
      reads this, ring
      ensures |w| == count
    {
      if count == RING_SIZE then ring[head..] + ring[..head] else ring[..count]
    }

    /** The i-th slot a reader visits. */
    lemma WalkAt(i: nat)
      requires Valid() && i < count
      ensures Walk()[i] == ring[(Start() + i) % RING_SIZE]
    {
      ModOnce(Start() + i);
    }

    lemma WalkHolds(i: nat)
      requires Valid() && i < count
      ensures Walk()[i] == captured[|captured| - count + i]
    {
      hide Walk;
      var n := |captured|;
      WalkAt(i);
      SlotOfWalk(n, count, i);
      assert ring[(n - count + i) % RING_SIZE] == captured[n - count + i];
    }

    /** Walking the ring yields exactly the last 128 captured lines in order. */
    lemma WalkIsTail()
      requires Valid()
      ensures Walk() == Last(captured, 128)
      ensures Walk() == if |captured| <= 128 then captured else captured[|captured| - 128..]
    {
      hide Walk;
      forall i | 0 <= i < count
        ensures Walk()[i] == captured[|captured| - count + i]
      {
        WalkHolds(i);
      }
    }
  }

  lemma ModOnce(k: nat)
    ensures k < RING_SIZE ==> k % RING_SIZE == k
    ensures RING_SIZE <= k < 2 * RING_SIZE ==> k % RING_SIZE == k - RING_SIZE
  {
  }

  lemma HeadMoves(n: nat)
    ensures (n % RING_SIZE + 1) % RING_SIZE == (n + 1) % RING_SIZE
  {
  }

  lemma OtherSlot(i: nat, n: nat)
    requires i < n < i + RING_SIZE
    ensures i % RING_SIZE != n % RING_SIZE
  {
  }

  lemma SlotOfWalk(n: nat, count: nat, i: nat)
    requires count == Min(n, RING_SIZE) && i < count
    ensures ((if count == RING_SIZE then n % RING_SIZE else 0) + i) % RING_SIZE == (n - count + i) % RING_SIZE
  {
  }
}
