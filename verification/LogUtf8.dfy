// Which log exports are valid UTF-8, and a log whose export to the buffer of every
// caller is cut inside a character.
module LogUtf8 {
  import opened Bytes
  import opened Numbers
  import opened JsonText
  import opened LogText
  import opened LogCut
  import L = LogLine
  import opened Utf8
  import opened JsonUtf8
  import StringEscape

  lemma {:induction false} LineClean(e: LogEntry, shown: string)
    ensures Clean(LineDoc(e, shown)) <==> Valid(shown)
  {
    hide Valid, EscapedLine, Dec;
    DecRoundTrip(e.tsUs / 1000);
    var d := Dec(e.tsUs / 1000);
    assert forall k :: 0 <= k < |d| ==> IsDigit(d[k]);
    AsciiFront(Prefix(e), EscapedLine(shown));
    EscapedValid(shown);
  }

  lemma LinesClean(entries: seq<LogEntry>)
    ensures Clean(DArr(LineDocs(entries, Lines(entries)))) <==>
            forall k :: 0 <= k < |entries| ==> Valid(entries[k].line)
  {
    hide Valid, LineDoc;
    var docs := LineDocs(entries, Lines(entries));
    forall k | 0 <= k < |entries|
      ensures Clean(docs[k]) <==> Valid(entries[k].line)
    {
      LineClean(entries[k], entries[k].line);
      assert docs[k] == LineDoc(entries[k], entries[k].line);
    }
  }

  /** A log exported whole is valid UTF-8 exactly when each of its lines is. */
  lemma WholeValid(entries: seq<LogEntry>)
    ensures Valid(Whole(entries)) <==> forall k :: 0 <= k < |entries| ==> Valid(entries[k].line)
  {
    hide Valid, Render, CleanField, LineDocs, Lines;
    var docs := LineDocs(entries, Lines(entries));
    LinesClean(entries);
    AsciiKey("logs", DArr(docs));
    RenderValid(LogDoc(docs));
    assert LogDoc(docs).fields[0] == Field("logs", DArr(docs));
  }

  /** The export ends its last line before byte `k`. */
  ghost predicate KeptTo(entries: seq<LogEntry>, cap: nat, k: nat)
    requires entries != []
  {
    var line, size := LastLine(entries), |Whole(entries)|;
    FirstCut(line, size, cap, k) || (k == |line| && forall j: nat :: !CutAt(line, size, cap, j))
  }

  /** A nonzero export is valid UTF-8 if and only if every line before the last
      is, and of the last one the part up to the cut. */
  lemma ReplyValidExactly(entries: seq<LogEntry>, cap: nat) returns (k: nat)
    requires entries != [] && Reply(entries, cap).Some?
    ensures KeptTo(entries, cap, k) && k <= |LastLine(entries)|
    ensures Reply(entries, cap) == Some(Whole(Shortened(entries, k)))
    ensures Valid(Reply(entries, cap).value) <==>
            (forall i :: 0 <= i < |entries| - 1 ==> Valid(entries[i].line)) && Valid(LastLine(entries)[..k])
  {
    hide Valid, Reply, Whole, EscapedLine;
    var line, size := LastLine(entries), |Whole(entries)|;
    PromiseKeptExactly(entries, cap);
    if j: nat :| CutAt(line, size, cap, j) {
      k := SomeFirstCut(line, size, cap, j);
    } else {
      k := |line|;
      assert line[..k] == line;
      assert Shortened(entries, k) == entries;
    }
    var short := Shortened(entries, k);
    WholeValid(short);
    assert forall i :: 0 <= i < |entries| - 1 ==> short[i] == entries[i];
    assert short[|entries| - 1].line == line[..k];
  }

  // ---- A cut inside a character --------------------------------------------

  /** `n` quote characters. */
  function Quotes(n: nat): string {
    if n == 0 then "" else "\"" + Quotes(n - 1)
  }

  /** `n` times the two bytes of U+00E9. */
  function Accents(n: nat): string {
    if n == 0 then "" else Encode(0xE9) + Accents(n - 1)
  }

  lemma {:induction false} QuotesEscaped(n: nat)
    ensures |Quotes(n)| == n && |EscapedLine(Quotes(n))| == 2 * n
  {
    if n > 0 {
      QuotesEscaped(n - 1);
      assert Quotes(n)[1..] == Quotes(n - 1);
    }
  }

  lemma {:induction false} AccentsEscaped(n: nat)
    ensures |Accents(n)| == 2 * n && Valid(Accents(n))
    ensures forall k :: 0 <= k < 2 * n ==> Accents(n)[k] as int >= 0x80
    ensures forall k :: 0 <= k < n ==> Accents(n)[2 * k] as int == 0xC3
  {
    hide Valid, PrefixLen;
    if n == 0 {
      AsciiValid([]);
    } else {
      AccentsEscaped(n - 1);
      OneAccent();
      ValidConcat(Encode(0xE9), Accents(n - 1));
      assert forall k :: 1 <= k < n ==> Accents(n)[2 * k] == Accents(n - 1)[2 * (k - 1)];
    }
  }

  lemma OneAccent()
    ensures Valid(Encode(0xE9)) && |Encode(0xE9)| == 2
    ensures Encode(0xE9)[0] as int == 0xC3 && Encode(0xE9)[1] as int == 0xA9
  {
    var e := Encode(0xE9);
    assert StartsWith(e, 0xE9);
    PrefixLenExact(e);
    assert e[2..] == [];
  }

  lemma {:induction false} HalfAccent(s: string)
    requires s != [] && s[|s| - 1] as int == 0xC3
    ensures !Valid(s)
  {
    hide PrefixLen, Valid;
    var a, b := s[..|s| - 1], s[|s| - 1..];
    assert s == a + b;
    ValidSplit(a, b);
    if Valid(b) { LoneLead(b); }
  }

  lemma {:induction false} LoneLead(b: string)
    requires |b| == 1 && b[0] as int == 0xC3
    ensures !Valid(b)
  {
    hide PrefixLen;
    if PrefixLen(b) > 0 { PrefixShape(b); }
  }

  /** 127 lines of 126 quotes and one of 60 accented letters. */
  function QuotedLog(): seq<LogEntry> {
    seq(127, _ => LogEntry(0, Quotes(126))) + [LogEntry(0, Accents(60))]
  }

  lemma {:induction false} QuotedLogSize(i: nat)
    requires i <= 127
    ensures |WholeFrom(QuotedLog(), i)| == 257 * (127 - i) + 127 - (if i == 0 then 1 else 0)
    decreases 127 - i
  {
    hide Quotes, Accents, EscapedLine, Prefix;
    var log := QuotedLog();
    StampOfZero(log[i]);
    if i == 127 {
      AccentsEscaped(60);
      HighKept(Accents(60));
      WholeOfLast(log);
    } else {
      QuotesEscaped(126);
      QuotedLogSize(i + 1);
    }
  }

  lemma StampOfZero(e: LogEntry)
    requires e.tsUs == 0
    ensures |Prefix(e)| == 2
  {
    assert Dec(0) == "0";
  }

  /** In the 32768 bytes that every caller offers: 128 lines within the ring's line
      size, the last one valid UTF-8. The result is not 0, nine bytes of the last
      line are missing, and it ends inside a character. */
  lemma CutAtTheCallersSize()
    ensures var log := QuotedLog();
            && |log| == 128 && (forall k :: 0 <= k < 128 ==> |log[k].line| <= 191 && Valid(log[k].line))
            && FirstCut(LastLine(log), |Whole(log)|, 32768, 111)
            && Reply(log, 32768) == Some(Whole(Shortened(log, 111)))
            && !Valid(Whole(Shortened(log, 111)))
  {
    hide Quotes, Accents, EscapedLine, Valid, Whole, Reply, FirstCut;
    var log, line := QuotedLog(), Accents(60);
    QuotesEscaped(126);
    QuotesValid(126);
    AccentsEscaped(60);
    QuotedLogCut();
    PromiseKeptExactly(log, 32768);
    WholeValid(Shortened(log, 111));
    assert Shortened(log, 111)[127].line == line[..111];
    assert line[110] as int == 0xC3 by { assert line[2 * 55] as int == 0xC3; }
    HalfAccent(line[..111]);
  }

  lemma QuotedLogCut()
    ensures FirstCut(LastLine(QuotedLog()), |Whole(QuotedLog())|, 32768, 111)
  {
    hide Quotes, Accents, EscapedLine, Valid, Whole;
    var log, line := QuotedLog(), Accents(60);
    AccentsEscaped(60);
    QuotedLogSize(0);
    WholeIsFrom(log);
    assert |Whole(log)| == 32774;
    forall k: nat | k <= 120
      ensures |EscapedLine(line[k..])| == 120 - k
    {
      HighKept(line[k..]);
    }
  }

  lemma {:induction false} QuotesValid(n: nat)
    ensures Valid(Quotes(n))
  {
    hide Valid;
    if n == 0 {
      AsciiValid([]);
    } else {
      QuotesValid(n - 1);
      AsciiFront("\"", Quotes(n - 1));
    }
  }

  /** Each of its lines is what the log hook keeps of itself, so a ring can hold
      this log. */
  lemma QuotedLogIsKept(k: nat)
    requires k < 128
    ensures L.CleanLine(QuotedLog()[k].line) == QuotedLog()[k].line
  {
    hide L.CleanLine, Quotes, Accents;
    QuotesKept();
    AccentsKept();
  }

  lemma QuotesKept()
    ensures L.CleanLine(Quotes(126)) == Quotes(126)
  {
    hide L.CleanLine, Quotes;
    QuotesOnly(126);
    L.PlainLineKept(Quotes(126));
  }

  lemma AccentsKept()
    ensures L.CleanLine(Accents(60)) == Accents(60)
  {
    hide L.CleanLine, Accents, Valid;
    AccentsEscaped(60);
    L.PlainLineKept(Accents(60));
  }

  lemma {:induction false} QuotesOnly(n: nat)
    ensures |Quotes(n)| == n && forall k :: 0 <= k < n ==> Quotes(n)[k] == '\"'
  {
    if n > 0 { QuotesOnly(n - 1); }
  }

  // ---- Logs that always fit ------------------------------------------------

  /** Up to 128 lines that take at most 231 bytes each once escaped are always
      exported whole into the callers' 32768 bytes. */
  lemma ModestLogIsWhole(entries: seq<LogEntry>)
    requires |entries| <= 128 && forall k :: 0 <= k < |entries| ==> |EscapedLine(entries[k].line)| <= 231
    ensures Reply(entries, 32768) == Some(Whole(entries))
  {
    hide EscapedLine, Whole, Reply, WholeFrom, LineChunk;
    ModestSize(entries, 0);
    WholeIsFrom(entries);
    CompleteExactly(entries, 32768);
    assert Slack(entries) <= 3;
  }

  lemma {:induction false} ModestSize(entries: seq<LogEntry>, i: nat)
    requires i <= |entries| && forall k :: 0 <= k < |entries| ==> |EscapedLine(entries[k].line)| <= 231
    ensures |WholeFrom(entries, i)| <= 255 * (|entries| - i) + 2
    decreases |entries| - i
  {
    hide EscapedLine, Dec;
    if i < |entries| {
      DecLengths(entries[i].tsUs / 1000);
      ModestSize(entries, i + 1);
    }
  }

  /** So is every full ring of lines without quotes, backslashes and controls. */
  lemma PlainLogIsWhole(entries: seq<LogEntry>)
    requires |entries| <= 128
    requires forall k :: 0 <= k < |entries| ==> |entries[k].line| < L.LINE_MAX && StringEscape.Plain(entries[k].line)
    ensures Reply(entries, 32768) == Some(Whole(entries))
  {
    hide EscapedLine, Whole, Reply, StringEscape.Plain;
    forall k | 0 <= k < |entries|
      ensures |EscapedLine(entries[k].line)| <= 231
    {
      PlainEscaped(entries[k].line);
    }
    ModestLogIsWhole(entries);
  }

  lemma {:induction false} PlainEscaped(line: string)
    requires StringEscape.Plain(line)
    ensures EscapedLine(line) == line
  {
    if line != [] {
      PlainEscaped(line[1..]);
      assert line == [line[0]] + line[1..];
    }
  }
}
