// log_ring_to_json of main/log_ring.cpp: the exporter itself, over a ring that
// nobody writes to meanwhile.
module LogExport {
  import opened Bytes
  import opened Numbers
  import opened LogText
  import opened LogRing
  import LogUtf8
  import opened StringEscape

  // ---- One line ------------------------------------------------------------

  /** The inner loop has emitted `done` for the first `i` characters. */
  ghost predicate EmittedSoFar(line: string, p: nat, cap: nat, i: nat, done: string) {
    i <= |line| && Emit(line, p, cap) == done + Emit(line[i..], p + |done|, cap)
  }

  lemma EmitStart(line: string, p: nat, cap: nat)
    ensures EmittedSoFar(line, p, cap, 0, "")
  {
    assert line[0..] == line;
    assert "" + Emit(line, p, cap) == Emit(line, p, cap);
  }

  lemma {:induction false} EmitStep(line: string, p: nat, cap: nat, i: nat, done: string)
    requires EmittedSoFar(line, p, cap, i, done)
    ensures if i == |line| || p + |done| + 6 >= cap then Emit(line, p, cap) == done
            else EmittedSoFar(line, p, cap, i + 1, done + LineChunk(line[i]))
  {
    hide LineChunk;
    if i == |line| || p + |done| + 6 >= cap {
      assert done + [] == done;
    } else {
      var c := LineChunk(line[i]);
      assert line[i..][1..] == line[i + 1..];
      var rest := Emit(line[i + 1..], p + |done| + |c|, cap);
      assert done + (c + rest) == done + c + rest;
    }
  }

  /** The loop that escapes a line; `line` is a C string without its NUL. */
  method EmitLine(out: array<char>, cap: nat, p: nat, line: string) returns (pos: nat)
    requires p <= cap <= out.Length
    modifies out
    ensures pos == p + |Emit(line, p, cap)| && (pos == p || pos < cap)
    ensures out[..pos] == old(out[..p]) + Emit(line, p, cap)
    ensures out[cap..] == old(out[cap..])
  {
    hide EmittedSoFar, Emit, LineChunk, Patch, Hex;
    pos := p;
    ghost var done := "";
    EmitStart(line, p, cap);
    var i := 0;
    while i < |line| && pos + 6 < cap
      invariant i <= |line| && pos == p + |done| && (pos == p || pos < cap)
      invariant EmittedSoFar(line, p, cap, i, done)
      invariant out[..pos] == old(out[..p]) + done
      invariant out[cap..] == old(out[cap..])
    {
      EmitStep(line, p, cap, i, done);
      pos := EmitChar(out, cap, pos, line[i]);
      done := done + LineChunk(line[i]);
      i := i + 1;
    }
    EmitStep(line, p, cap, i, done);
  }

  /** The three branches of that loop. */
  method EmitChar(out: array<char>, cap: nat, p: nat, c: char) returns (pos: nat)
    requires p + 6 < cap <= out.Length
    modifies out
    ensures pos == p + |LineChunk(c)| && pos < cap
    ensures out[..pos] == old(out[..p]) + LineChunk(c)
    ensures out[cap..] == old(out[cap..])
  {
    hide Hex;
    LineChunkSize(c);
    pos := p;
    if c == '\"' || c == '\\' {
      out[pos] := '\\';
      out[pos + 1] := c;
      pos := pos + 2;
    } else if c < ' ' {
      var w := Snprintf(out, pos, cap - pos, ControlEscape(c));
      pos := pos + w;
    } else {
      out[pos] := c;
      pos := pos + 1;
    }
  }

  // ---- The whole log -------------------------------------------------------

  /** The export has written `done` and stands before entry `i`. */
  ghost predicate ExportedSoFar(entries: seq<LogEntry>, cap: nat, i: nat, done: string) {
    && i <= |entries| && OPENING <= done
    && var all, rest := Export(entries, 0, |OPENING|, cap), Export(entries, i, |done|, cap);
       if rest.None? then all.None? else all.Some? && OPENING + all.value == done + rest.value
  }

  lemma ExportStart(entries: seq<LogEntry>, cap: nat)
    ensures ExportedSoFar(entries, cap, 0, OPENING)
  {
  }

  /** The text of entry `i` when the export stands at byte `pos`. */
  function EntryText(entries: seq<LogEntry>, i: nat, pos: nat, cap: nat): string
    requires i < |entries|
  {
    var open := Separator(i) + "\"";
    open + Prefix(entries[i]) + Emit(entries[i].line, pos + |open| + |Prefix(entries[i])|, cap) + "\""
  }

  /** The checks around entry `i` all pass. */
  predicate EntryPasses(entries: seq<LogEntry>, i: nat, pos: nat, cap: nat)
    requires i < |entries|
  {
    && pos + 4 < cap
    && pos + |Separator(i)| + 1 + |Prefix(entries[i])| < cap
    && pos + |EntryText(entries, i, pos, cap)| + 1 < cap
  }

  lemma ExportStep(entries: seq<LogEntry>, cap: nat, i: nat, done: string)
    requires i < |entries| && ExportedSoFar(entries, cap, i, done)
    ensures if EntryPasses(entries, i, |done|, cap)
            then ExportedSoFar(entries, cap, i + 1, done + EntryText(entries, i, |done|, cap))
            else Reply(entries, cap).None?
  {
    hide Prefix, Emit;
    if EntryPasses(entries, i, |done|, cap) {
      var t := EntryText(entries, i, |done|, cap);
      var rest := Export(entries, i + 1, |done| + |t|, cap);
      if rest.Some? {
        assert done + (t + rest.value) == done + t + rest.value;
      }
    }
  }

  lemma ExportLast(entries: seq<LogEntry>, cap: nat, done: string)
    requires ExportedSoFar(entries, cap, |entries|, done) && cap >= 16
    ensures Reply(entries, cap) == if |done| + 3 > cap then None else Some(done + "]}")
  {
  }

  /** The comma and the quote before an entry. */
  method EmitOpen(out: array<char>, cap: nat, p: nat, i: nat) returns (pos: nat)
    requires p + 2 < cap <= out.Length
    modifies out
    ensures pos == p + |Separator(i)| + 1 && pos < cap
    ensures out[..pos] == old(out[..p]) + (Separator(i) + "\"")
    ensures out[cap..] == old(out[cap..])
  {
    hide Patch;
    pos := p;
    ghost var tail := out[cap..];
    if i > 0 {
      Blit(out, pos, ",");
      pos := pos + 1;
      assert out[cap..] == out[pos..][cap - pos..] == tail;
    }
    assert out[..pos] == old(out[..p]) + Separator(i);
    Blit(out, pos, "\"");
    pos := pos + 1;
    assert out[cap..] == out[pos..][cap - pos..] == tail;
  }

  /** The comma, the quote and the time in front of a line. */
  method EmitStamp(out: array<char>, cap: nat, p: nat, snap: LogEntry, i: nat) returns (pos: nat, ok: bool)
    requires p + 4 < cap <= out.Length
    modifies out
    ensures pos == p + |Separator(i)| + 1 + |Prefix(snap)| && (ok <==> pos < cap)
    ensures ok ==> out[..pos] == old(out[..p]) + (Separator(i) + "\"" + Prefix(snap))
    ensures out[cap..] == old(out[cap..])
  {
    hide Prefix, Patch, Separator;
    pos := EmitOpen(out, cap, p, i);
    ghost var head := out[..pos];
    var w := Snprintf(out, pos, cap - pos, Prefix(snap));
    ok := w < cap - pos;
    pos := pos + w;
    assert head + Prefix(snap) == old(out[..p]) + (Separator(i) + "\"" + Prefix(snap));
  }

  /** One turn of the outer loop; `ok` is false where the source returns 0. */
  method EmitEntry(out: array<char>, cap: nat, p: nat, snap: LogEntry, i: nat, ghost entries: seq<LogEntry>)
    returns (pos: nat, ok: bool)
    requires p <= cap <= out.Length && i < |entries| && snap == entries[i]
    modifies out
    ensures ok <==> EntryPasses(entries, i, p, cap)
    ensures ok ==> pos == p + |EntryText(entries, i, p, cap)| && pos < cap
    ensures ok ==> out[..pos] == old(out[..p]) + EntryText(entries, i, p, cap)
    ensures out[cap..] == old(out[cap..])
  {
    hide Prefix, Emit, Patch, Separator;
    ok := false;
    if p + 4 >= cap { return p, false; }
    pos, ok := EmitStamp(out, cap, p, snap, i);
    if !ok { return; }
    ghost var q, text := pos, Emit(snap.line, pos, cap);
    pos := EmitLine(out, cap, pos, snap.line);
    if pos + 2 >= cap { return pos, false; }
    Blit(out, pos, "\"");
    pos := pos + 1;
  }

  lemma TooSmall(entries: seq<LogEntry>, cap: nat)
    requires cap < 16
    ensures Reply(entries, cap).None?
  {
  }

  /** The opening and the outer loop; `ok` is false where the source returns 0. */
  method EmitAll(r: Ring, out: array<char>, cap: nat) returns (pos: nat, ok: bool)
    requires r.Valid() && 16 <= cap <= out.Length
    modifies out
    ensures var entries := Last(r.captured, RING_SIZE);
            if ok then pos <= cap && ExportedSoFar(entries, cap, |entries|, out[..pos]) else Reply(entries, cap).None?
    ensures out[cap..] == old(out[cap..])
  {
    hide ExportedSoFar, EntryText, EntryPasses, Patch, Export, Last, Reply, LogRing.Ring.Walk;
    ghost var entries := Last(r.captured, RING_SIZE);
    r.WalkIsTail();
    var count, start := r.count, r.Start();
    pos := Snprintf(out, 0, cap, OPENING);
    assert out[..pos] == OPENING;
    ExportStart(entries, cap);
    ok := true;
    for i := 0 to count
      invariant pos <= cap && ok
      invariant ExportedSoFar(entries, cap, i, out[..pos])
      invariant out[cap..] == old(out[cap..])
    {
      ExportStep(entries, cap, i, out[..pos]);
      r.WalkAt(i);
      var snap := r.ring[(start + i) % RING_SIZE];
      assert snap == entries[i];
      pos, ok := EmitEntry(out, cap, pos, snap, i, entries);
      if !ok { return; }
    }
  }

  /** log_ring_to_json; a null `out` is allowed. Nothing behind `cap` changes, and
      a nonzero result is the reply with its NUL. */
  method LogRingToJson(r: Ring, out: array?<char>, cap: nat) returns (n: nat)
    requires r.Valid() && (out != null ==> cap <= out.Length)
    modifies if out != null then {out} else {}
    ensures out == null ==> n == 0
    ensures out != null ==>
              && out[cap..] == old(out[cap..])
              && var reply := Reply(Last(r.captured, 128), cap);
                 if reply.None? then n == 0
                 else n == |reply.value| && n < cap && out[..n] == reply.value && out[n] == NUL
  {
    hide ExportedSoFar, Patch, Export, Last, Reply;
    if out == null { return 0; }
    ghost var entries := Last(r.captured, RING_SIZE);
    if cap < 16 {
      TooSmall(entries, cap);
      return 0;
    }
    var buf: array<char> := out;
    var pos, ok := EmitAll(r, buf, cap);
    if !ok { return 0; }
    ExportLast(entries, cap, buf[..pos]);
    if pos + 3 > cap { return 0; }
    Close(buf, cap, pos);
    return pos + 2;
  }

  /** The closing brackets and the NUL. */
  method Close(out: array<char>, cap: nat, pos: nat)
    requires pos + 3 <= cap <= out.Length
    modifies out
    ensures out[..pos + 2] == old(out[..pos]) + "]}" && out[pos + 2] == NUL
    ensures out[cap..] == old(out[cap..])
  {
    out[pos] := ']';
    out[pos + 1] := '}';
    out[pos + 2] := NUL;
  }

  /** A ring whose lines hold nothing to escape is exported whole by both callers,
      however often it has wrapped. */
  lemma PlainRingIsWhole(r: Ring)
    requires r.Valid() && forall k :: 0 <= k < |r.captured| ==> Plain(r.captured[k].line)
    ensures var entries := Last(r.captured, RING_SIZE); Reply(entries, 32768) == Some(Whole(entries))
  {
    hide Reply, Whole, Plain;
    LogUtf8.PlainLogIsWhole(Last(r.captured, RING_SIZE));
  }
}
