// When log_ring_to_json breaks the promise of main/log_ring.h to return 0 rather
// than a truncated log: the exact buffer sizes, what is returned then, and when
// that is not even valid UTF-8.
module LogCut {
  import opened Bytes
  import opened Numbers
  import opened LogText
  import opened Utf8
  import StringEscape

  // ---- Where the inner loop stops ------------------------------------------

  lemma {:induction false} EscapedConcat(a: string, b: string)
    ensures EscapedLine(a + b) == EscapedLine(a) + EscapedLine(b)
  {
    hide LineChunk;
    if a == [] {
      assert a + b == b;
      assert [] + EscapedLine(b) == EscapedLine(b);
    } else {
      assert (a + b)[1..] == a[1..] + b;
      EscapedConcat(a[1..], b);
      var c := LineChunk(a[0]);
      assert c + (EscapedLine(a[1..]) + EscapedLine(b)) == c + EscapedLine(a[1..]) + EscapedLine(b);
    }
  }

  /** The line up to byte `k` takes what the rest leaves. */
  lemma {:induction false} EscapedCut(line: string, k: nat)
    requires k <= |line|
    ensures |EscapedLine(line)| == |EscapedLine(line[..k])| + |EscapedLine(line[k..])|
  {
    assert line == line[..k] + line[k..];
    EscapedConcat(line[..k], line[k..]);
  }

  lemma EscapedGrows(line: string, j: nat, k: nat)
    requires j <= k <= |line|
    ensures |EscapedLine(line[..j])| <= |EscapedLine(line[..k])|
  {
    assert line[..k][..j] == line[..j];
    EscapedCut(line[..k], j);
  }

  /** The loop stops at the first byte before which fewer than seven are left. */
  lemma EmitStops(line: string, pos: nat, cap: nat) returns (k: nat)
    ensures k <= |line| && Emit(line, pos, cap) == EscapedLine(line[..k])
    ensures k < |line| ==> pos + |EscapedLine(line[..k])| + 6 >= cap
    ensures forall j :: 0 <= j < k ==> pos + |EscapedLine(line[..j])| + 6 < cap
  {
    hide LineChunk;
    k := 0;
    if line != [] && pos + 6 < cap {
      var c, rest := LineChunk(line[0]), line[1..];
      var m := EmitStops(rest, pos + |c|, cap);
      k := m + 1;
      assert line[..k][1..] == rest[..m];
      forall j | 0 <= j < k
        ensures pos + |EscapedLine(line[..j])| + 6 < cap
      {
        if j > 0 { assert line[..j][1..] == rest[..j - 1]; }
      }
    }
  }

  // ---- The sizes at which a log is cut -------------------------------------

  function LastLine(entries: seq<LogEntry>): string
    requires entries != []
  {
    entries[|entries| - 1].line
  }

  /** The log whose last line ends before byte `k`. */
  function Shortened(entries: seq<LogEntry>, k: nat): seq<LogEntry>
    requires entries != [] && k <= |LastLine(entries)|
  {
    entries[|entries| - 1 := entries[|entries| - 1].(line := LastLine(entries)[..k])]
  }

  /** A text of `size` bytes without those of the line's bytes from `k` on fits
      with its NUL, but with no more than two bytes to spare. */
  predicate CutAt(line: string, size: nat, cap: nat, k: nat) {
    k < |line| && size - |EscapedLine(line[k..])| < cap <= size - |EscapedLine(line[k..])| + 3
  }

  /** The first such byte: with anything before it there is more to spare. */
  predicate FirstCut(line: string, size: nat, cap: nat, k: nat) {
    CutAt(line, size, cap, k) && forall j: nat :: j < k ==> size - |EscapedLine(line[j..])| + 3 < cap
  }

  /** From entry `i` on: the export is truncated exactly for the sizes of CutAt,
      and is then that of the shortened log. */
  ghost predicate CutAsSaid(entries: seq<LogEntry>, i: nat, pos: nat, cap: nat)
    requires i < |entries|
  {
    var line, size, e := LastLine(entries), pos + |WholeFrom(entries, i)|, Export(entries, i, pos, cap);
    && (e.Some? && e != Some(WholeFrom(entries, i)) <==> exists k: nat :: CutAt(line, size, cap, k))
    && forall k: nat :: FirstCut(line, size, cap, k) ==> e == Some(WholeFrom(Shortened(entries, k), i))
  }

  lemma LastEntry(entries: seq<LogEntry>, pos: nat, cap: nat)
    requires entries != []
    ensures CutAsSaid(entries, |entries| - 1, pos, cap)
  {
    hide Prefix, EscapedLine, Emit;
    var i, line := |entries| - 1, LastLine(entries);
    var p2 := pos + |Separator(i)| + 1 + |Prefix(entries[i])|;
    var k0 := EmitStops(line, p2, cap);
    var text := EscapedLine(line[..k0]);
    var e := Export(entries, i, pos, cap);
    var size := pos + |WholeFrom(entries, i)|;
    PrefixSize(entries[i]);
    WholeOfLast(entries);
    EscapedCut(line, k0);
    assert size == p2 + |EscapedLine(line)| + 3;
    LastExport(entries, pos, cap);
    if k0 == |line| { assert line[..k0] == line; } else { SomethingMissing(line, k0); }
    if e.Some? && e != Some(WholeFrom(entries, i)) {
      assert CutAt(line, size, cap, k0);
    }
    forall k: nat | CutAt(line, size, cap, k)
      ensures e.Some? && k0 <= k
    {
      EscapedCut(line, k);
      EscapedGrows(line, k0, k);
    }
    forall k: nat | FirstCut(line, size, cap, k)
      ensures e == Some(WholeFrom(Shortened(entries, k), i))
    {
      EscapedCut(line, k);
      assert k0 <= k;
      WholeOfLast(Shortened(entries, k));
      PrefixOfTime(entries[i], line[..k]);
    }
  }

  lemma LastExport(entries: seq<LogEntry>, pos: nat, cap: nat)
    requires entries != []
    ensures var i := |entries| - 1;
            var p2 := pos + |Separator(i)| + 1 + |Prefix(entries[i])|;
            var text := Emit(entries[i].line, p2, cap);
            Export(entries, i, pos, cap) ==
            if p2 + |text| + 4 <= cap then Some(Separator(i) + "\"" + Prefix(entries[i]) + text + "\"" + "]}") else None
  {
    hide Prefix, Emit;
    var i := |entries| - 1;
    var p2 := pos + |Separator(i)| + 1 + |Prefix(entries[i])|;
    PrefixSize(entries[i]);
    ExportEnd(entries, p2 + |Emit(entries[i].line, p2, cap)| + 1, cap);
  }

  lemma PrefixOfTime(e: LogEntry, line: string)
    ensures Prefix(e.(line := line)) == Prefix(e)
  {
  }

  lemma PrefixSize(e: LogEntry)
    ensures |Prefix(e)| >= 2
  {
    hide Dec;
  }

  lemma {:induction false} WholeOfLast(entries: seq<LogEntry>)
    requires entries != []
    ensures var i := |entries| - 1;
            WholeFrom(entries, i) ==
            Separator(i) + "\"" + Prefix(entries[i]) + EscapedLine(entries[i].line) + "\"" + "]}"
  {
    hide Prefix, EscapedLine, Separator;
  }

  lemma SomethingMissing(line: string, k: nat)
    requires k < |line|
    ensures |EscapedLine(line[k..])| > 0
  {
    hide LineChunk;
  }

  /** The last line and what surrounds it is in every rest of the log. */
  lemma {:induction false} HoldsLastLine(entries: seq<LogEntry>, i: nat)
    requires 0 < i < |entries|
    ensures |WholeFrom(entries, i)| >= |EscapedLine(LastLine(entries))| + 7
    decreases |entries| - i
  {
    hide Prefix, EscapedLine;
    PrefixSize(entries[i]);
    if i + 1 == |entries| { WholeOfLast(entries); } else { HoldsLastLine(entries, i + 1); }
  }

  lemma ExportCut(entries: seq<LogEntry>, i: nat, pos: nat, cap: nat)
    requires i < |entries|
    ensures CutAsSaid(entries, i, pos, cap)
    decreases |entries| - i
  {
    hide Export, WholeFrom, EscapedLine, Emit, Prefix;
    if i + 1 == |entries| {
      LastEntry(entries, pos, cap);
    } else {
      var line, size := LastLine(entries), pos + |WholeFrom(entries, i)|;
      var full := Separator(i) + "\"" + Prefix(entries[i]) + EscapedLine(entries[i].line) + "\"";
      ExportCut(entries, i + 1, pos + |full|, cap);
      EarlierEntry(entries, i, pos, cap);
      assert size == pos + |full| + |WholeFrom(entries, i + 1)|;
      forall k: nat | CutAt(line, size, cap, k)
        ensures pos + |full| + 8 <= cap
        ensures WholeFrom(Shortened(entries, k), i) == full + WholeFrom(Shortened(entries, k), i + 1)
      {
        CutNeedsRoom(entries, i, pos, cap, k);
        ShortenedStep(entries, i, k);
      }
      forall k: nat | FirstCut(line, size, cap, k)
        ensures Export(entries, i, pos, cap) == Some(WholeFrom(Shortened(entries, k), i))
      {
        assert CutAt(line, size, cap, k);
      }
    }
  }

  lemma CutNeedsRoom(entries: seq<LogEntry>, i: nat, pos: nat, cap: nat, k: nat)
    requires i + 1 < |entries| && CutAt(LastLine(entries), pos + |WholeFrom(entries, i)|, cap, k)
    ensures pos + |WholeFrom(entries, i)| - |WholeFrom(entries, i + 1)| + 8 <= cap
  {
    hide WholeFrom, EscapedLine;
    EscapedCut(LastLine(entries), k);
    HoldsLastLine(entries, i + 1);
  }

  lemma ShortenedStep(entries: seq<LogEntry>, i: nat, k: nat)
    requires i + 1 < |entries| && k <= |LastLine(entries)|
    ensures WholeFrom(Shortened(entries, k), i) ==
            Separator(i) + "\"" + Prefix(entries[i]) + EscapedLine(entries[i].line) + "\"" +
            WholeFrom(Shortened(entries, k), i + 1)
  {
    hide Prefix, EscapedLine, Separator;
  }

  /** An entry before the last: either there is room for all of it, or the export
      has failed. */
  lemma EarlierEntry(entries: seq<LogEntry>, i: nat, pos: nat, cap: nat)
    requires i + 1 < |entries|
    ensures var full := Separator(i) + "\"" + Prefix(entries[i]) + EscapedLine(entries[i].line) + "\"";
            var e, rest := Export(entries, i, pos, cap), Export(entries, i + 1, pos + |full|, cap);
            && WholeFrom(entries, i) == full + WholeFrom(entries, i + 1)
            && (e.Some? ==> rest.Some? && e.value == full + rest.value)
            && (pos + |full| + 8 <= cap && rest.Some? ==> e.Some?)
            && (e.Some? ==> (e.value == WholeFrom(entries, i) <==> rest.value == WholeFrom(entries, i + 1)))
  {
    hide Prefix, Emit, EscapedLine, LineChunk, Separator;
    var line := entries[i].line;
    var p2 := pos + |Separator(i)| + 1 + |Prefix(entries[i])|;
    var full := Separator(i) + "\"" + Prefix(entries[i]) + EscapedLine(line) + "\"";
    EmitWhole(line, p2, cap);
    var text := Emit(line, p2, cap);
    if line != [] { LineChunkSize(line[|line| - 1]); }
    if text != EscapedLine(line) {
      var k := EmitIsPrefix(line, p2, cap);
      assert line[..|line|] == line;
      NothingAfterACut(entries, i + 1, p2 + |text|, cap);
    }
    var e, rest := Export(entries, i, pos, cap), Export(entries, i + 1, pos + |full|, cap);
    assert pos + |full| == p2 + |EscapedLine(line)| + 1;
    if e.Some? {
      assert e.value == full + rest.value;
      SameTail(full, rest.value, WholeFrom(entries, i + 1));
    }
  }

  // ---- The promise ---------------------------------------------------------

  /** main/log_ring.h promises 0 rather than a truncated log. The promise is kept
      exactly when for no byte `k` of the last line the text without the bytes from
      `k` on fits with its NUL and at most two bytes to spare. Where it is broken,
      the reply is the whole text of the log whose last line ends at the first such
      byte. */
  lemma PromiseKeptExactly(entries: seq<LogEntry>, cap: nat)
    ensures Reply(entries, cap).None? || Reply(entries, cap) == Some(Whole(entries)) <==>
            entries == [] || forall k: nat :: !CutAt(LastLine(entries), |Whole(entries)|, cap, k)
    ensures entries != [] ==> forall k: nat :: FirstCut(LastLine(entries), |Whole(entries)|, cap, k) ==>
              Reply(entries, cap) == Some(Whole(Shortened(entries, k)))
  {
    hide Export, WholeFrom, Whole, EscapedLine;
    WholeIsFrom(entries);
    if entries == [] {
      ExportEnd(entries, |OPENING|, cap);
    } else {
      ExportCut(entries, 0, |OPENING|, cap);
      var line, size, e := LastLine(entries), |Whole(entries)|, Export(entries, 0, |OPENING|, cap);
      if e.Some? { SameTail(OPENING, e.value, WholeFrom(entries, 0)); }
      forall k: nat | CutAt(line, size, cap, k)
        ensures cap >= 16
      {
        EscapedCut(line, k);
        FirstHoldsLastLine(entries);
      }
      forall k: nat | FirstCut(line, size, cap, k)
        ensures Reply(entries, cap) == Some(Whole(Shortened(entries, k)))
      {
        assert CutAt(line, size, cap, k);
        WholeIsFrom(Shortened(entries, k));
      }
    }
  }

  lemma {:induction false} FirstHoldsLastLine(entries: seq<LogEntry>)
    requires entries != []
    ensures |WholeFrom(entries, 0)| >= |EscapedLine(LastLine(entries))| + 6
  {
    hide Prefix, EscapedLine;
    PrefixSize(entries[0]);
    if |entries| == 1 { WholeOfLast(entries); } else { HoldsLastLine(entries, 1); }
  }

  /** Where a log is cut at all there is a first byte at which it is. */
  lemma SomeFirstCut(line: string, size: nat, cap: nat, k: nat) returns (first: nat)
    requires CutAt(line, size, cap, k)
    ensures first <= k && FirstCut(line, size, cap, first)
    decreases k
  {
    hide EscapedLine;
    first := k;
    if j: nat :| j < k && size - |EscapedLine(line[j..])| + 3 >= cap {
      EscapedCut(line, j);
      EscapedCut(line, k);
      EscapedGrows(line, j, k);
      first := SomeFirstCut(line, size, cap, j);
    }
  }

  // ---- Valid UTF-8 ---------------------------------------------------------

  /** Escaping a line neither breaks nor repairs its UTF-8. */
  lemma {:induction false} EscapedValid(s: string)
    ensures Valid(EscapedLine(s)) <==> Valid(s)
    decreases |s|
  {
    hide PrefixLen, LineChunk;
    if s != [] {
      var c, t, n := s[0], EscapedLine(s), PrefixLen(s);
      if c as int < 0x80 {
        AsciiChunk(c);
        AsciiFront(LineChunk(c), EscapedLine(s[1..]));
        AsciiFront([c], s[1..]);
        assert s == [c] + s[1..];
        EscapedValid(s[1..]);
      } else if n > 0 {
        PrefixShape(s);
        var a, r := s[..n], s[n..];
        assert s == a + r;
        EscapedConcat(a, r);
        HighKept(a);
        assert t[..n] == a && t[n..] == EscapedLine(r);
        PrefixLenLocal(s, t);
        EscapedValid(r);
      } else {
        NoPrefixEither(s);
      }
    }
  }

  lemma AsciiChunk(c: char)
    requires c as int < 0x80
    ensures LineChunk(c) != [] && forall k :: 0 <= k < |LineChunk(c)| ==> LineChunk(c)[k] as int < 0x80
  {
    hide Hex;
    if c < ' ' {
      StringEscape.ControlDigits(c);
    }
  }

  lemma {:induction false} HighKept(a: string)
    requires forall k :: 0 <= k < |a| ==> a[k] as int >= 0x80
    ensures EscapedLine(a) == a
  {
    if a != [] {
      HighKept(a[1..]);
      assert a == [a[0]] + a[1..];
    }
  }

  /** Bytes from 0x80 on at the front of the escaped line are those of the line. */
  lemma {:induction false} HighFront(s: string, n: nat)
    requires n <= |EscapedLine(s)| && forall k :: 0 <= k < n ==> EscapedLine(s)[k] as int >= 0x80
    ensures n <= |s| && s[..n] == EscapedLine(s)[..n]
  {
    hide LineChunk;
    if n > 0 {
      var t := EscapedLine(s);
      assert t == LineChunk(s[0]) + EscapedLine(s[1..]);
      assert t[0] == LineChunk(s[0])[0];
      if s[0] as int < 0x80 { AsciiChunk(s[0]); }
      HighKept([s[0]]);
      assert LineChunk(s[0]) == [s[0]] by { assert LineChunk(s[0]) + [] == LineChunk(s[0]); }
      assert forall k :: 0 <= k < n - 1 ==> EscapedLine(s[1..])[k] == t[k + 1];
      HighFront(s[1..], n - 1);
      assert s[..n] == [s[0]] + s[1..][..n - 1];
    }
  }

  lemma {:induction false} NoPrefixEither(s: string)
    requires s != [] && s[0] as int >= 0x80 && PrefixLen(s) == 0
    ensures !Valid(s) && !Valid(EscapedLine(s))
  {
    hide PrefixLen, LineChunk;
    var t := EscapedLine(s);
    var n := PrefixLen(t);
    assert t != [];
    if n > 0 {
      PrefixShape(t);
      HighKept([s[0]]);
      assert t[0] == s[0];
      HighFront(s, n);
      PrefixLenLocal(t, s);
    }
  }
}
