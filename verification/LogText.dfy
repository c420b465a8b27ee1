// The text that log_ring_to_json (main/log_ring.cpp) builds from a ring that no
// one writes to meanwhile: its end-of-buffer rules, what it decodes to, and when
// nothing is missing.
module LogText {
  import opened Bytes
  import opened Numbers
  import opened JsonText
  import opened JsonFields
  import opened StringEscape

  /** A captured line and its time. */
  datatype LogEntry = LogEntry(tsUs: U64, line: string)

  /** A line character as the exporter writes it. */
  function LineChunk(c: char): (r: string)
    ensures r != []
  {
    if c == '\"' || c == '\\' then ['\\', c]
    else if c < ' ' then ControlEscape(c)
    else [c]
  }

  function EscapedLine(line: string): string {
    if line == [] then [] else LineChunk(line[0]) + EscapedLine(line[1..])
  }

  /** The inner loop at byte `pos`: it goes on while six more bytes fit. */
  function Emit(line: string, pos: nat, cap: nat): string {
    if line == [] || pos + 6 >= cap then []
    else LineChunk(line[0]) + Emit(line[1..], pos + |LineChunk(line[0])|, cap)
  }

  /** The time in ms that precedes every line. */
  function Prefix(e: LogEntry): string {
    Dec(e.tsUs / 1000) + " "
  }

  function Separator(i: nat): string {
    if i > 0 then "," else ""
  }

  /** What the exporter appends from entry `i` and byte `pos` on, None when it
      gives up. */
  function Export(entries: seq<LogEntry>, i: nat, pos: nat, cap: nat): Option<string>
    requires i <= |entries|
    decreases |entries| - i
  {
    if i == |entries| then if pos + 3 > cap then None else Some("]}")
    else if pos + 4 >= cap then None
    else
      var open := Separator(i) + "\"";
      var p1 := pos + |open|;
      var stamp := Prefix(entries[i]);
      if |stamp| >= cap - p1 then None
      else
        var text := Emit(entries[i].line, p1 + |stamp|, cap);
        var p3 := p1 + |stamp| + |text|;
        if p3 + 2 >= cap then None
        else
          var rest := Export(entries, i + 1, p3 + 1, cap);
          if rest.None? then None else Some(open + stamp + text + "\"" + rest.value)
  }

  const OPENING: string := "{\"logs\":["

  /** The whole reply, None for the result 0. */
  function Reply(entries: seq<LogEntry>, cap: nat): Option<string> {
    if cap < 16 then None
    else
      var t := Export(entries, 0, |OPENING|, cap);
      if t.None? then None else Some(OPENING + t.value)
  }

  // ---- What the text says --------------------------------------------------

  lemma LineChunkDecodes(c: char)
    ensures Unescape(LineChunk(c)) == Some([c])
    ensures NUL !in LineChunk(c)
  {
    hide NextPiece, Hex, HexDigit;
    var t := LineChunk(c);
    if c == '\"' || c == '\\' {
      ShortDecodes(c);
      UnescapeOne(t);
    } else if c < ' ' {
      ControlDecodes(c);
      UnescapeOne(t);
      ControlDigits(c);
      NoNulDigits(c);
    } else {
      UnescapePlain(t);
    }
  }

  lemma NoNulDigits(c: char)
    requires c < ' '
    ensures HexDigit(c as int / 16, false) != NUL && HexDigit(c as int % 16, false) != NUL
  {
  }

  lemma {:induction false} EscapedLineDecodes(line: string)
    ensures Unescape(EscapedLine(line)) == Some(line)
  {
    hide LineChunk, NextPiece;
    if line != [] {
      LineChunkDecodes(line[0]);
      EscapedLineDecodes(line[1..]);
      UnescapeConcat(LineChunk(line[0]), EscapedLine(line[1..]));
      assert line == [line[0]] + line[1..];
    }
  }

  /** The inner loop emits some prefix of the line, the whole line unless it came
      within six bytes of the end. */
  lemma {:induction false} EmitIsPrefix(line: string, pos: nat, cap: nat) returns (k: nat)
    ensures k <= |line| && Emit(line, pos, cap) == EscapedLine(line[..k])
    ensures k < |line| ==> pos + |Emit(line, pos, cap)| + 6 >= cap
  {
    hide LineChunk;
    if line == [] || pos + 6 >= cap {
      k := 0;
    } else {
      var c := LineChunk(line[0]);
      var j := EmitIsPrefix(line[1..], pos + |c|, cap);
      k := j + 1;
      assert line[..k][1..] == line[1..][..j] && line[..k][0] == line[0];
    }
  }

  /** An entry as shown: its time and some prefix of its line. */
  function LineDoc(e: LogEntry, shown: string): Doc {
    DStr(Prefix(e) + EscapedLine(shown))
  }

  function LineDocs(entries: seq<LogEntry>, shown: seq<string>): (r: seq<Doc>)
    requires |shown| == |entries|
    ensures |r| == |shown|
  {
    seq(|shown|, k requires 0 <= k < |shown| => LineDoc(entries[k], shown[k]))
  }

  /** Every line whole but the last, which may be cut. */
  predicate AllButLastWhole(entries: seq<LogEntry>, shown: seq<string>) {
    && |shown| == |entries|
    && (forall k :: 0 <= k < |shown| ==> shown[k] <= entries[k].line)
    && (forall k :: 0 <= k < |shown| - 1 ==> shown[k] == entries[k].line)
  }

  /** A line that had to be cut leaves no room for another one. */
  lemma NothingAfterACut(entries: seq<LogEntry>, i: nat, p3: nat, cap: nat)
    requires i < |entries| && p3 + 6 >= cap && i > 0
    ensures Export(entries, i, p3 + 1, cap).None?
  {
    hide Dec;
  }

  /** The rest of the export from entry `i` on. */
  function Remainder(entries: seq<LogEntry>, i: nat, docs: seq<Doc>): string {
    (if i > 0 && docs != [] then "," else "") + RenderItems(docs) + "]}"
  }

  lemma RemainderStep(entries: seq<LogEntry>, i: nat, docs: seq<Doc>)
    requires docs != []
    ensures Remainder(entries, i, docs) == Separator(i) + Render(docs[0]) + Remainder(entries, i + 1, docs[1..])
  {
    hide Render;
    var d, rest := Render(docs[0]), RenderItems(docs[1..]);
    if |docs| == 1 {
      assert docs[1..] == [];
      assert Separator(i) + d + "]}" == Separator(i) + d + ("" + [] + "]}");
    } else {
      assert Separator(i) + (d + "," + rest) + "]}" == Separator(i) + d + ("," + rest + "]}");
    }
  }

  /** Whatever is exported is a run of whole JSON strings; only the very last may
      be cut. */
  lemma {:induction false} ExportShape(entries: seq<LogEntry>, i: nat, pos: nat, cap: nat) returns (shown: seq<string>)
    requires i <= |entries| && Export(entries, i, pos, cap).Some?
    ensures AllButLastWhole(entries[i..], shown)
    ensures Export(entries, i, pos, cap).value == Remainder(entries, i, LineDocs(entries[i..], shown))
    decreases |entries| - i
  {
    hide Dec, Emit, EscapedLine, Prefix;
    if i == |entries| {
      shown := [];
      assert LineDocs(entries[i..], []) == [];
      assert "" + [] + "]}" == "]}";
    } else {
      var e := entries[i];
      var p2 := pos + |Separator(i)| + 1 + |Prefix(e)|;
      var k := EmitIsPrefix(e.line, p2, cap);
      var text := Emit(e.line, p2, cap);
      var later := ExportShape(entries, i + 1, p2 + |text| + 1, cap);
      if k < |e.line| && i + 1 < |entries| {
        NothingAfterACut(entries, i + 1, p2 + |text|, cap);
        assert false;
      }
      shown := [e.line[..k]] + later;
      ShapeCons(entries, i, e.line[..k], later);
      JoinEntry(Separator(i), Prefix(e), text, Remainder(entries, i + 1, LineDocs(entries[i + 1..], later)));
    }
  }

  lemma JoinEntry(sep: string, stamp: string, text: string, rest: string)
    ensures sep + "\"" + stamp + text + "\"" + rest == sep + Quoted(stamp + text) + rest
  {
  }

  lemma {:induction false} ShapeCons(entries: seq<LogEntry>, i: nat, first: string, later: seq<string>)
    requires i < |entries| && AllButLastWhole(entries[i + 1..], later)
    requires first <= entries[i].line && (later != [] ==> first == entries[i].line)
    ensures AllButLastWhole(entries[i..], [first] + later)
    ensures Remainder(entries, i, LineDocs(entries[i..], [first] + later)) ==
            Separator(i) + Quoted(Prefix(entries[i]) + EscapedLine(first)) +
            Remainder(entries, i + 1, LineDocs(entries[i + 1..], later))
  {
    hide Prefix, EscapedLine, RenderItems;
    var es, shown := entries[i..], [first] + later;
    assert es[1..] == entries[i + 1..];
    forall k | 0 <= k < |shown|
      ensures shown[k] <= es[k].line && (k < |shown| - 1 ==> shown[k] == es[k].line)
    {
      if k > 0 { assert es[k] == es[1..][k - 1] && shown[k] == later[k - 1]; }
    }
    var docs := LineDocs(es, shown);
    assert docs[1..] == LineDocs(entries[i + 1..], later);
    assert Render(docs[0]) == Quoted(Prefix(entries[i]) + EscapedLine(first));
    RemainderStep(entries, i, docs);
  }

  /** An exported reply leaves room for its NUL. */
  lemma {:induction false} ExportFits(entries: seq<LogEntry>, i: nat, pos: nat, cap: nat)
    requires i <= |entries| && Export(entries, i, pos, cap).Some?
    ensures pos + |Export(entries, i, pos, cap).value| < cap
    decreases |entries| - i
  {
    hide Dec, Emit;
    if i < |entries| {
      var p2 := pos + |Separator(i)| + 1 + |Prefix(entries[i])|;
      ExportFits(entries, i + 1, p2 + |Emit(entries[i].line, p2, cap)| + 1, cap);
    }
  }

  function LogDoc(docs: seq<Doc>): Doc {
    DObj([Field("logs", DArr(docs))])
  }

  lemma {:induction false} LogDocText(docs: seq<Doc>)
    ensures Render(LogDoc(docs)) == OPENING + RenderItems(docs) + "]}"
  {
    hide RenderItems;
    var f := Field("logs", DArr(docs));
    var x := RenderItems(docs);
    assert Render(DArr(docs)) == "[" + x + "]";
    assert RenderField(f) == "\"logs\":[" + x + "]" by {
      assert Quoted("logs") + ":" + ("[" + x + "]") == "\"logs\":[" + x + "]";
    }
    assert RenderFields([f]) == RenderField(f);
    assert "{" + ("\"logs\":[" + x + "]") + "}" == OPENING + x + "]}";
  }

  lemma PrefixPlain(e: LogEntry)
    ensures Plain(Prefix(e))
  {
    hide Dec;
    DecRoundTrip(e.tsUs / 1000);
    var d := Dec(e.tsUs / 1000);
    assert forall k :: 0 <= k < |d| ==> IsDigit(d[k]);
  }

  lemma LineReads(e: LogEntry, shown: string)
    ensures WellFormed(LineDoc(e, shown)) && Meaning(LineDoc(e, shown)) == JStr(Prefix(e) + shown)
  {
    hide Prefix, EscapedLine, Unescape;
    PrefixPlain(e);
    UnescapePlain(Prefix(e));
    EscapedLineDecodes(shown);
    UnescapeConcat(Prefix(e), EscapedLine(shown));
  }

  /** The strings a client reads. */
  function LineValues(entries: seq<LogEntry>, shown: seq<string>): (r: seq<Json>)
    requires |shown| == |entries|
    ensures |r| == |shown|
  {
    seq(|shown|, k requires 0 <= k < |shown| => JStr(Prefix(entries[k]) + shown[k]))
  }

  lemma LinesRead(entries: seq<LogEntry>, shown: seq<string>)
    requires |shown| == |entries|
    ensures forall k :: 0 <= k < |shown| ==> WellFormed(LineDocs(entries, shown)[k])
    ensures Meanings(LineDocs(entries, shown)) == LineValues(entries, shown)
  {
    hide LineDoc, Prefix, WellFormed, Meaning;
    forall k | 0 <= k < |shown|
      ensures WellFormed(LineDocs(entries, shown)[k])
      ensures Meaning(LineDocs(entries, shown)[k]) == LineValues(entries, shown)[k]
    {
      LineReads(entries[k], shown[k]);
    }
  }

  /** A nonzero result is one well-formed JSON object whose strings decode, oldest
      first, to the lines of the ring with their times; only the very last may be
      cut. It leaves room for the NUL. */
  lemma ReplyParses(entries: seq<LogEntry>, cap: nat) returns (shown: seq<string>)
    requires Reply(entries, cap).Some?
    ensures AllButLastWhole(entries, shown)
    ensures Parse(Reply(entries, cap).value) == Some(JObj([Member("logs", JArr(LineValues(entries, shown)))]))
    ensures |Reply(entries, cap).value| < cap
  {
    hide Export, LineDocs, LineValues, Meanings, RenderItems, Parse, Render, WellFormed, Meaning, ReadsAs;
    shown := ExportShape(entries, 0, |OPENING|, cap);
    ExportFits(entries, 0, |OPENING|, cap);
    assert entries[0..] == entries;
    var docs := LineDocs(entries, shown);
    LinesRead(entries, shown);
    LogDocText(docs);
    assert OPENING + ("" + RenderItems(docs) + "]}") == OPENING + RenderItems(docs) + "]}";
    ArrayReadsAs("logs", docs);
    ObjectMeaning(LogDoc(docs), [Member("logs", JArr(LineValues(entries, shown)))]);
    ParseDocument(LogDoc(docs));
  }

  /** The stamp in front of a line: the whole milliseconds, in decimal. */
  predicate IsStamp(d: string, tsUs: U64) {
    AllDigits(d) && d != [] && (d[0] == '0' ==> d == "0") && 1000 * DecValue(d) <= tsUs < 1000 * DecValue(d) + 1000
  }

  lemma PrefixIsStamp(e: LogEntry) returns (d: string)
    ensures IsStamp(d, e.tsUs) && Prefix(e) == d + " "
  {
    hide Dec, DecValue;
    d := Dec(e.tsUs / 1000);
    DecRoundTrip(e.tsUs / 1000);
  }

  /** What a client reads of a nonzero reply: for every line of the ring, oldest
      first, its milliseconds, a blank and the line, the very last perhaps cut. */
  lemma {:induction false} ReplySays(entries: seq<LogEntry>, cap: nat)
    returns (shown: seq<string>, stamps: seq<string>, values: seq<Json>)
    requires Reply(entries, cap).Some?
    ensures |shown| == |stamps| == |values| == |entries|
    ensures Parse(Reply(entries, cap).value) == Some(JObj([Member("logs", JArr(values))]))
    ensures forall k :: 0 <= k < |entries| ==> values[k] == JStr(stamps[k] + " " + shown[k])
    ensures forall k :: 0 <= k < |entries| ==>
              shown[k] <= entries[k].line && (k + 1 < |entries| ==> shown[k] == entries[k].line)
    ensures forall k :: 0 <= k < |entries| ==>
              var d, t := stamps[k], entries[k].tsUs;
              && AllDigits(d) && d != [] && (d[0] == '0' ==> d == "0")
              && 1000 * DecValue(d) <= t < 1000 * DecValue(d) + 1000
  {
    hide Export, Parse, Reply, Prefix, DecValue, AllDigits;
    shown := ReplyParses(entries, cap);
    values := LineValues(entries, shown);
    stamps := Stamps(entries);
  }

  lemma {:induction false} Stamps(entries: seq<LogEntry>) returns (stamps: seq<string>)
    ensures |stamps| == |entries|
    ensures forall k :: 0 <= k < |entries| ==>
              IsStamp(stamps[k], entries[k].tsUs) && Prefix(entries[k]) == stamps[k] + " "
  {
    hide Prefix, IsStamp;
    stamps := [];
    if entries != [] {
      var init := Stamps(entries[..|entries| - 1]);
      var d := PrefixIsStamp(entries[|entries| - 1]);
      stamps := init + [d];
    }
  }

  // ---- When nothing is missing ---------------------------------------------

  function Lines(entries: seq<LogEntry>): (r: seq<string>)
    ensures |r| == |entries|
  {
    seq(|entries|, k requires 0 <= k < |entries| => entries[k].line)
  }

  /** The export without any bound. */
  function Whole(entries: seq<LogEntry>): string {
    Render(LogDoc(LineDocs(entries, Lines(entries))))
  }

  /** Bytes that must stay free behind the NUL: the inner loop asks for six bytes
      before the last character of the last line. */
  function Slack(entries: seq<LogEntry>): nat {
    if entries == [] || entries[|entries| - 1].line == [] then 0
    else
      var n := |LineChunk(entries[|entries| - 1].line[|entries[|entries| - 1].line| - 1])|;
      if n < 3 then 3 - n else 0
  }

  lemma LineChunkSize(c: char)
    ensures |LineChunk(c)| == (if c == '\"' || c == '\\' then 2 else if c < ' ' then 6 else 1)
  {
    hide Hex;
    if c < ' ' { ControlDecodes(c); }
  }

  /** A line is emitted whole exactly when six bytes are free before its last
      character. */
  lemma {:induction false} EmitWhole(line: string, pos: nat, cap: nat)
    ensures |Emit(line, pos, cap)| <= |EscapedLine(line)|
    ensures Emit(line, pos, cap) == EscapedLine(line) <==> |Emit(line, pos, cap)| == |EscapedLine(line)|
    ensures |Emit(line, pos, cap)| == |EscapedLine(line)| <==>
            line == [] || pos + |EscapedLine(line)| - |LineChunk(line[|line| - 1])| + 6 < cap
    ensures line != [] ==> |EscapedLine(line)| >= |LineChunk(line[|line| - 1])|
  {
    hide LineChunk;
    if line != [] {
      var c := LineChunk(line[0]);
      var rest := line[1..];
      EmitWhole(rest, pos + |c|, cap);
      if rest != [] { assert rest[|rest| - 1] == line[|line| - 1]; }
    }
  }

  /** The rest of the export without bound. */
  function WholeFrom(entries: seq<LogEntry>, i: nat): string
    requires i <= |entries|
    decreases |entries| - i
  {
    if i == |entries| then "]}"
    else Separator(i) + "\"" + Prefix(entries[i]) + EscapedLine(entries[i].line) + "\"" + WholeFrom(entries, i + 1)
  }

  /** From entry `i` on nothing is cut exactly when the rest, its NUL and the
      slack fit. */
  lemma {:induction false} ExportWhole(entries: seq<LogEntry>, i: nat, pos: nat, cap: nat)
    requires i <= |entries|
    ensures Export(entries, i, pos, cap) == Some(WholeFrom(entries, i)) <==>
            pos + |WholeFrom(entries, i)| + 1 + (if i < |entries| then Slack(entries) else 0) <= cap
    ensures Export(entries, i, pos, cap).Some? ==> |Export(entries, i, pos, cap).value| <= |WholeFrom(entries, i)|
    decreases |entries| - i
  {
    hide Export, WholeFrom, Emit, EscapedLine, Prefix, Slack, Separator;
    if i == |entries| {
      ExportEnd(entries, pos, cap);
    } else {
      var p2 := pos + |Separator(i)| + 1 + |Prefix(entries[i])|;
      ExportWhole(entries, i + 1, p2 + |EscapedLine(entries[i].line)| + 1, cap);
      ExportWhole(entries, i + 1, p2 + |Emit(entries[i].line, p2, cap)| + 1, cap);
      EntryWhole(entries, i, pos, cap);
    }
  }

  lemma {:induction false} ExportEnd(entries: seq<LogEntry>, pos: nat, cap: nat)
    ensures Export(entries, |entries|, pos, cap) == if pos + 3 > cap then None else Some("]}")
    ensures WholeFrom(entries, |entries|) == "]}"
  {
  }

  lemma {:induction false} WholeAtLeast(entries: seq<LogEntry>, i: nat)
    requires i <= |entries|
    ensures |WholeFrom(entries, i)| >= if i < |entries| then 6 + |Separator(i)| else 2
    decreases |entries| - i
  {
    hide Dec, EscapedLine;
    if i < |entries| { WholeAtLeast(entries, i + 1); }
  }

  lemma EntryWhole(entries: seq<LogEntry>, i: nat, pos: nat, cap: nat)
    requires i < |entries|
    requires var p3 := pos + |Separator(i)| + 1 + |Prefix(entries[i])| + |EscapedLine(entries[i].line)|;
             Export(entries, i + 1, p3 + 1, cap) == Some(WholeFrom(entries, i + 1)) <==>
             p3 + 1 + |WholeFrom(entries, i + 1)| + 1 + (if i + 1 < |entries| then Slack(entries) else 0) <= cap
    requires var p2 := pos + |Separator(i)| + 1 + |Prefix(entries[i])|;
             var e := Export(entries, i + 1, p2 + |Emit(entries[i].line, p2, cap)| + 1, cap);
             e.Some? ==> |e.value| <= |WholeFrom(entries, i + 1)|
    ensures Export(entries, i, pos, cap) == Some(WholeFrom(entries, i)) <==>
            pos + |WholeFrom(entries, i)| + 1 + Slack(entries) <= cap
    ensures Export(entries, i, pos, cap).Some? ==> |Export(entries, i, pos, cap).value| <= |WholeFrom(entries, i)|
  {
    hide Export, WholeFrom, Prefix, Emit, EscapedLine, LineChunk, Separator;
    var e := entries[i];
    var p2 := pos + |Separator(i)| + 1 + |Prefix(e)|;
    var text, full := Emit(e.line, p2, cap), EscapedLine(e.line);
    EmitWhole(e.line, p2, cap);
    if e.line != [] { LineChunkSize(e.line[|e.line| - 1]); }
    if i + 1 < |entries| { WholeAtLeast(entries, i + 1); } else { ExportEnd(entries, pos, cap); }
    ExportEntry(entries, i, pos, cap);
    var x := Export(entries, i, pos, cap);
    if x.Some? {
      var rest := Export(entries, i + 1, p2 + |text| + 1, cap);
      if |text| == |full| {
        SameTail(Separator(i) + "\"" + Prefix(e) + full + "\"", rest.value, WholeFrom(entries, i + 1));
      }
    }
  }

  /** One entry of the export, and of the text without bound. */
  lemma ExportEntry(entries: seq<LogEntry>, i: nat, pos: nat, cap: nat)
    requires i < |entries|
    ensures var head := Separator(i) + "\"" + Prefix(entries[i]);
            var p2 := pos + |head|;
            var text := Emit(entries[i].line, p2, cap);
            var rest := Export(entries, i + 1, p2 + |text| + 1, cap);
            && |head| == |Separator(i)| + 1 + |Prefix(entries[i])|
            && Export(entries, i, pos, cap) == (
                 if pos + 4 >= cap || p2 >= cap || p2 + |text| + 2 >= cap || rest.None? then None
                 else Some(head + text + "\"" + rest.value))
            && WholeFrom(entries, i) == head + EscapedLine(entries[i].line) + "\"" + WholeFrom(entries, i + 1)
  {
    hide Prefix, Emit, EscapedLine, Separator;
  }

  lemma SameTail(a: string, b: string, c: string)
    ensures a + b == a + c <==> b == c
  {
    assert (a + b)[|a|..] == b && (a + c)[|a|..] == c;
  }

  lemma {:induction false} WholeIsRemainder(entries: seq<LogEntry>, i: nat)
    requires i <= |entries|
    ensures WholeFrom(entries, i) == Remainder(entries, i, LineDocs(entries[i..], Lines(entries[i..])))
    decreases |entries| - i
  {
    hide Prefix, EscapedLine, Remainder;
    if i == |entries| {
      assert LineDocs(entries[i..], Lines(entries[i..])) == [];
      EmptyRemainder(entries, i);
    } else {
      WholeIsRemainder(entries, i + 1);
      var later := Lines(entries[i + 1..]);
      assert Lines(entries[i..]) == [entries[i].line] + later;
      ShapeCons(entries, i, entries[i].line, later);
      JoinEntry(Separator(i), Prefix(entries[i]), EscapedLine(entries[i].line), WholeFrom(entries, i + 1));
    }
  }

  lemma EmptyRemainder(entries: seq<LogEntry>, i: nat)
    ensures Remainder(entries, i, []) == "]}"
  {
    assert "" + [] + "]}" == "]}";
  }

  lemma {:induction false} WholeIsFrom(entries: seq<LogEntry>)
    ensures Whole(entries) == OPENING + WholeFrom(entries, 0)
  {
    hide WholeFrom, LineDocs, Lines, RenderItems;
    WholeIsRemainder(entries, 0);
    assert entries[0..] == entries;
    var docs := LineDocs(entries, Lines(entries));
    LogDocText(docs);
    assert OPENING + ("" + RenderItems(docs) + "]}") == OPENING + RenderItems(docs) + "]}";
  }

  /** The result is the whole log exactly when there is room for its text, the NUL
      and the slack its last character needs. */
  lemma CompleteExactly(entries: seq<LogEntry>, cap: nat)
    ensures Reply(entries, cap) == Some(Whole(entries)) <==>
            cap >= 16 && |Whole(entries)| + 1 + Slack(entries) <= cap
  {
    hide Export, WholeFrom, Whole, Slack;
    ExportWhole(entries, 0, |OPENING|, cap);
    WholeIsFrom(entries);
    NoSlack(entries);
    if cap >= 16 && Reply(entries, cap).Some? {
      SameTail(OPENING, Export(entries, 0, |OPENING|, cap).value, WholeFrom(entries, 0));
    }
  }

  lemma NoSlack(entries: seq<LogEntry>)
    ensures entries == [] ==> Slack(entries) == 0
  {
  }

  /** A log of one line that fits its buffer with the NUL and is cut all the same,
      with a nonzero result. */
  lemma CutWithoutNotice()
    ensures var entries := [LogEntry(0, "A")];
            && |Whole(entries)| + 1 == 17
            && Reply(entries, 17) == Some("{\"logs\":[\"0 \"]}")
  {
    var entries := [LogEntry(0, "A")];
    var e := entries[0];
    assert Dec(0) == "0";
    assert Prefix(e) == "0 ";
    assert EscapedLine("A") == "A" by { assert "A"[1..] == []; }
    var docs := LineDocs(entries, Lines(entries));
    assert "0 " + "A" == "0 A";
    assert LineDoc(e, "A") == DStr("0 A");
    assert Lines(entries) == ["A"];
    assert docs == [DStr("0 A")];
    LogDocText(docs);
    assert RenderItems(docs) == "\"0 A\"";
    assert Emit("A", 12, 17) == [];
    assert Export(entries, 1, 13, 17) == Some("]}");
    assert "" + "\"" + "0 " + [] + "\"" + "]}" == "\"0 \"]}";
    assert Export(entries, 0, 9, 17) == Some("\"0 \"]}");
    assert OPENING + "\"0 \"]}" == "{\"logs\":[\"0 \"]}";
  }
}
