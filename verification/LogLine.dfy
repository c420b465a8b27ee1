// The line that main/log_ring.cpp keeps of a message: cut to its buffer, without
// line ends at its end and without the colour codes found from left to right.
module LogLine {
  import opened Bytes
  import opened Numbers

  const LINE_MAX: nat := 192
  const ESC: char := Byte(0x1B)

  // ---- The line that is kept -----------------------------------------------

  predicate IsLineEnd(c: char) {
    c == '\n' || c == '\r' || c == ESC
  }

  function TrimEnd(s: string): (r: string)
    ensures r <= s
    ensures r == [] || !IsLineEnd(r[|r| - 1])
    ensures forall k :: |r| <= k < |s| ==> IsLineEnd(s[k])
  {
    if s != [] && IsLineEnd(s[|s| - 1]) then TrimEnd(s[..|s| - 1]) else s
  }

  /** What follows the `m` of a colour code. */
  function AfterCode(s: string): (r: string)
    ensures |r| <= |s|
  {
    if s == [] then [] else if s[0] == 'm' then s[1..] else AfterCode(s[1..])
  }

  /** The line without ANSI colour codes. */
  function StripAnsi(s: string): (r: string)
    ensures |r| <= |s|
    decreases |s|
  {
    if s == [] then []
    else if s[0] == ESC && |s| > 1 && s[1] == '[' then StripAnsi(AfterCode(s[2..]))
    else [s[0]] + StripAnsi(s[1..])
  }

  function Fitting(text: string): string {
    text[..Min(|text|, LINE_MAX - 1)]
  }

  /** The line kept of a formatted log message. */
  function CleanLine(text: string): (line: string)
    ensures |line| < LINE_MAX
  {
    CStr(StripAnsi(TrimEnd(Fitting(text))))
  }

  // ---- What is removed -----------------------------------------------------

  /** A message read from left to right: bytes, and colour codes from ESC [ to the
      next m or the end. */
  datatype Token = Kept(c: char) | Code(params: string, closed: bool)

  function TextOf(t: Token): string {
    match t
    case Kept(c) => [c]
    case Code(params, closed) => [ESC, '['] + params + (if closed then "m" else "")
  }

  function Spelled(ts: seq<Token>): string {
    if ts == [] then [] else TextOf(ts[0]) + Spelled(ts[1..])
  }

  function KeptOf(ts: seq<Token>): string {
    if ts == [] then [] else (if ts[0].Kept? then [ts[0].c] else []) + KeptOf(ts[1..])
  }

  /** Token `k` could not be read otherwise: a code ends at its first m, and an ESC
      that is kept does not start one. */
  predicate ReadAt(ts: seq<Token>, k: nat)
    requires k < |ts|
  {
    match ts[k]
    case Code(params, closed) => 'm' !in params && (closed || k + 1 == |ts|)
    case Kept(c) => c == ESC && k + 1 < |ts| ==> ts[k + 1] != Kept('[')
  }

  predicate WellRead(ts: seq<Token>) {
    forall k :: 0 <= k < |ts| ==> ReadAt(ts, k)
  }

  lemma WellReadRest(ts: seq<Token>)
    requires WellRead(ts) && ts != []
    ensures WellRead(ts[1..])
  {
    var rest := ts[1..];
    forall k | 0 <= k < |rest|
      ensures ReadAt(rest, k)
    {
      assert ReadAt(ts, k + 1) && rest[k] == ts[k + 1] && (k + 1 < |rest| ==> rest[k + 1] == ts[k + 2]);
    }
  }

  lemma {:induction false} AfterParams(params: string, x: string)
    requires 'm' !in params
    ensures AfterCode(params + "m" + x) == x && AfterCode(params) == []
  {
    var s := params + "m" + x;
    if params == [] {
      assert s[1..] == x;
    } else {
      assert s[1..] == params[1..] + "m" + x;
      AfterParams(params[1..], x);
    }
  }

  lemma {:induction false} StripCode(params: string, closed: bool, x: string)
    requires 'm' !in params && (closed || x == [])
    ensures StripAnsi(TextOf(Code(params, closed)) + x) == StripAnsi(x)
  {
    hide AfterCode;
    var s := TextOf(Code(params, closed)) + x;
    AfterParams(params, x);
    assert s[2..] == if closed then params + "m" + x else params;
  }

  lemma {:induction false} StripKept(c: char, x: string)
    requires c == ESC ==> x == [] || x[0] != '['
    ensures StripAnsi([c] + x) == [c] + StripAnsi(x)
  {
    var s := [c] + x;
    assert s[1..] == x;
  }

  /** Of a message read in any such way exactly the codes are removed. */
  lemma {:induction false} StripSpelled(ts: seq<Token>)
    requires WellRead(ts)
    ensures StripAnsi(Spelled(ts)) == KeptOf(ts)
  {
    hide StripAnsi, TextOf, WellRead;
    if ts == [] {
      NothingToStrip([]);
    } else {
      var rest := ts[1..];
      WellReadRest(ts);
      StripSpelled(rest);
      ReadFirst(ts);
      match ts[0]
      case Code(params, closed) =>
        StripCode(params, closed, Spelled(rest));
        assert [] + KeptOf(rest) == KeptOf(rest);
      case Kept(c) =>
        assert TextOf(ts[0]) == [c] by { OneKept(c); }
        StripKept(c, Spelled(rest));
    }
  }

  lemma OneKept(c: char)
    ensures TextOf(Kept(c)) == [c]
  {
  }

  lemma ReadFirst(ts: seq<Token>)
    requires WellRead(ts) && ts != []
    ensures var x := Spelled(ts[1..]);
            match ts[0]
            case Code(params, closed) => 'm' !in params && (closed || x == [])
            case Kept(c) => c == ESC ==> x == [] || x[0] != '['
  {
    assert ReadAt(ts, 0);
    if |ts| > 1 { FirstByte(ts[1..]); }
  }

  lemma {:induction false} FirstByte(ts: seq<Token>)
    requires ts != []
    ensures Spelled(ts) != [] && Spelled(ts)[0] == if ts[0].Kept? then ts[0].c else ESC
  {
  }

  /** Every message can be read so. */
  lemma {:induction false} EveryLineReads(s: string) returns (ts: seq<Token>)
    ensures WellRead(ts) && Spelled(ts) == s
    decreases |s|
  {
    hide Spelled, WellRead;
    var t, rest: string;
    if s == [] {
      ts := [];
      NothingRead();
      return;
    } else if s[0] == ESC && |s| > 1 && s[1] == '[' {
      var params, closed;
      params, rest, closed := SplitCode(s[2..]);
      t := Code(params, closed);
      assert s == [ESC, '['] + s[2..] == TextOf(t) + rest;
    } else {
      t, rest := Kept(s[0]), s[1..];
      assert s == TextOf(t) + rest;
    }
    var later := EveryLineReads(rest);
    ts := [t] + later;
    if later != [] { FirstByte(later); }
    ConsReads(t, later);
  }

  lemma NothingRead()
    ensures WellRead([]) && Spelled([]) == []
  {
  }

  lemma {:induction false} ConsReads(t: Token, later: seq<Token>)
    requires WellRead(later) && ReadAt([t] + later, 0)
    ensures WellRead([t] + later) && Spelled([t] + later) == TextOf(t) + Spelled(later)
  {
    var ts := [t] + later;
    assert ts[1..] == later;
    forall k | 1 <= k < |ts|
      ensures ReadAt(ts, k)
    {
      assert ReadAt(later, k - 1);
    }
  }

  lemma {:induction false} SplitCode(s: string) returns (params: string, rest: string, closed: bool)
    ensures 'm' !in params && |rest| <= |s| && (!closed ==> rest == [])
    ensures s == params + (if closed then "m" else "") + rest
  {
    if s == [] {
      params, rest, closed := [], [], false;
    } else if s[0] == 'm' {
      params, rest, closed := [], s[1..], true;
    } else {
      params, rest, closed := SplitCode(s[1..]);
      params := [s[0]] + params;
    }
  }

  /** The line kept is the message cut to 191 bytes, without the line ends and ESC
      bytes at its end, without exactly the colour codes found in it from left to
      right, up to a NUL. */
  lemma CleanReads(text: string) returns (ts: seq<Token>)
    ensures WellRead(ts) && Spelled(ts) == TrimEnd(Fitting(text))
    ensures CleanLine(text) == CStr(KeptOf(ts))
    ensures ts != [] && ts[|ts| - 1].Kept? ==> !IsLineEnd(ts[|ts| - 1].c)
  {
    hide StripAnsi, TrimEnd;
    ts := EveryLineReads(TrimEnd(Fitting(text)));
    StripSpelled(ts);
    if ts != [] && ts[|ts| - 1].Kept? { LastByte(ts); }
  }

  lemma {:induction false} LastByte(ts: seq<Token>)
    requires ts != [] && ts[|ts| - 1].Kept?
    ensures Spelled(ts) != [] && Spelled(ts)[|Spelled(ts)| - 1] == ts[|ts| - 1].c
  {
    if |ts| > 1 {
      assert ts[1..][|ts| - 2] == ts[|ts| - 1];
      LastByte(ts[1..]);
    }
  }

  /** The shortest kind of message whose line still holds a code. */
  lemma CleanLeavesACode()
    ensures CleanLine([ESC, ESC, '[', '0', 'm', '[', '1', 'm']) == [ESC, '[', '1', 'm']
  {
    hide StripAnsi;
    var x := [ESC, ESC, '[', '0', 'm', '[', '1', 'm'];
    assert Fitting(x) == x && TrimEnd(x) == x;
    StripKept(ESC, x[1..]);
    StripCode("0", true, "[1m");
    assert x == [ESC] + x[1..] && x[1..] == TextOf(Code("0", true)) + "[1m";
    NothingToStrip("[1m");
    CStrUnique([ESC, '[', '1', 'm'], 4);
  }

  /** A message whose line still ends in a line end. */
  lemma CleanLeavesALineEnd()
    ensures CleanLine(['a', '\n', ESC, '[', '0', 'm']) == ['a', '\n']
  {
    hide StripAnsi;
    var y := ['a', '\n', ESC, '[', '0', 'm'];
    assert Fitting(y) == y && TrimEnd(y) == y;
    StripKept('a', y[1..]);
    StripKept('\n', y[2..]);
    StripCode("0", true, "");
    assert y == ['a'] + y[1..] && y[1..] == ['\n'] + y[2..] && y[2..] == TextOf(Code("0", true)) + "";
    NothingToStrip("");
    CStrUnique(['a', '\n'], 2);
  }

  // ---- When codes and line ends are left -----------------------------------

  /** Nothing more is kept of the line: only codes follow, up to a NUL or the end. */
  predicate Over(ts: seq<Token>) {
    ts == [] || match ts[0] case Code(_, _) => Over(ts[1..]) case Kept(c) => c == NUL
  }

  /** Before any NUL there is a line end or ESC behind which nothing more is kept. */
  predicate LineEndStays(ts: seq<Token>) {
    ts != [] &&
    match ts[0]
    case Code(_, _) => LineEndStays(ts[1..])
    case Kept(c) => c != NUL && (LineEndStays(ts[1..]) || (IsLineEnd(c) && Over(ts[1..])))
  }

  /** The next byte that is kept. */
  function NextKept(ts: seq<Token>): Option<char> {
    if ts == [] then None
    else match ts[0] case Code(_, _) => NextKept(ts[1..]) case Kept(c) => Some(c)
  }

  /** Before any NUL there is an ESC whose next kept byte is a bracket: the codes
      between them are removed. */
  predicate CodeStays(ts: seq<Token>) {
    ts != [] &&
    match ts[0]
    case Code(_, _) => CodeStays(ts[1..])
    case Kept(c) => c != NUL && (CodeStays(ts[1..]) || (c == ESC && NextKept(ts[1..]) == Some('[')))
  }

  predicate EndsInLineEnd(line: string) {
    line != [] && IsLineEnd(line[|line| - 1])
  }

  predicate HoldsCode(line: string) {
    exists k :: 0 <= k < |line| - 1 && line[k] == ESC && line[k + 1] == '['
  }

  /** The first token's part of what a C string of the kept bytes holds. */
  lemma {:induction false} KeptFirst(ts: seq<Token>)
    requires ts != []
    ensures var x := CStr(KeptOf(ts[1..]));
            CStr(KeptOf(ts)) == if ts[0].Code? then x else if ts[0].c == NUL then [] else [ts[0].c] + x
  {
    var x := KeptOf(ts[1..]);
    match ts[0]
    case Code(_, _) => assert [] + x == x;
    case Kept(c) => assert ([c] + x)[1..] == x;
  }

  lemma {:induction false} OverOfKept(ts: seq<Token>)
    ensures CStr(KeptOf(ts)) == [] <==> Over(ts)
  {
    hide CStr, KeptOf;
    if ts == [] {
      NothingKept();
    } else {
      OverOfKept(ts[1..]);
      KeptFirst(ts);
    }
  }

  lemma NothingKept()
    ensures CStr(KeptOf([])) == []
  {
  }

  lemma {:induction false} LineEndOfKept(ts: seq<Token>)
    ensures EndsInLineEnd(CStr(KeptOf(ts))) <==> LineEndStays(ts)
  {
    hide CStr, KeptOf, Over, IsLineEnd;
    if ts == [] {
      NothingKept();
    } else {
      LineEndOfKept(ts[1..]);
      OverOfKept(ts[1..]);
      KeptFirst(ts);
    }
  }

  lemma {:induction false} CodeOfKept(ts: seq<Token>)
    ensures HoldsCode(CStr(KeptOf(ts))) <==> CodeStays(ts)
    ensures var x := CStr(KeptOf(ts)); NextKept(ts) == Some('[') <==> x != [] && x[0] == '['
  {
    hide CStr, KeptOf, HoldsCode;
    if ts == [] {
      NothingKept();
      NoCode();
    } else {
      CodeOfKept(ts[1..]);
      KeptFirst(ts);
      NoCode();
      if ts[0].Kept? { HoldsCodeCons(ts[0].c, CStr(KeptOf(ts[1..]))); }
    }
  }

  lemma NoCode()
    ensures !HoldsCode([])
  {
  }

  lemma HoldsCodeCons(c: char, x: string)
    ensures HoldsCode([c] + x) <==> HoldsCode(x) || (c == ESC && x != [] && x[0] == '[')
  {
    var y := [c] + x;
    if k :| 0 <= k < |x| - 1 && x[k] == ESC && x[k + 1] == '[' {
      assert y[k + 1] == ESC && y[k + 2] == '[';
    }
    if k :| 0 <= k < |y| - 1 && y[k] == ESC && y[k + 1] == '[' {
      if k > 0 { assert x[k - 1] == ESC && x[k] == '['; }
    }
    if c == ESC && x != [] && x[0] == '[' { assert y[0] == ESC && y[1] == '['; }
  }

  /** For every reading of a message: its line ends in a line end, and holds a
      colour code, exactly when the reading says so. */
  lemma {:induction false} CleanLeavesExactly(text: string, ts: seq<Token>)
    requires WellRead(ts) && Spelled(ts) == TrimEnd(Fitting(text))
    ensures EndsInLineEnd(CleanLine(text)) <==> LineEndStays(ts)
    ensures HoldsCode(CleanLine(text)) <==> CodeStays(ts)
  {
    hide StripAnsi, TrimEnd, EndsInLineEnd, HoldsCode, WellRead;
    StripSpelled(ts);
    LineEndOfKept(ts);
    CodeOfKept(ts);
  }

  /** A line without escapes and line ends that fits is kept as it is. */
  lemma {:induction false} PlainLineKept(text: string)
    requires |text| <= 191 && NUL !in text && forall k :: 0 <= k < |text| ==> text[k] as int != 0x1B
    requires text == [] || (text[|text| - 1] != '\n' && text[|text| - 1] != '\r')
    ensures CleanLine(text) == text
  {
    assert Fitting(text) == text;
    NothingToStrip(text);
    assert text[..|text|] == text;
    CStrUnique(text, |text|);
  }

  /** A line feed, carriage return or ESC at the end of a message goes. */
  lemma {:induction false} LineEndGoes(text: string, c: char)
    requires |text| < 191 && (c == '\n' || c == '\r' || c as int == 0x1B)
    ensures CleanLine(text + [c]) == CleanLine(text)
  {
    hide StripAnsi;
    assert Fitting(text + [c]) == text + [c] && Fitting(text) == text;
    assert (text + [c])[..|text|] == text;
  }

  /** What does not fit in 191 bytes is as if it had never been printed. */
  lemma LongMessageCut(text: string)
    requires |text| > 191
    ensures CleanLine(text) == CleanLine(text[..191])
  {
    hide StripAnsi, TrimEnd;
    assert Fitting(text[..191]) == text[..191];
  }

  lemma {:induction false} NothingToStrip(s: string)
    requires ESC !in s
    ensures StripAnsi(s) == s
  {
    if s != [] {
      NothingToStrip(s[1..]);
      assert s == [s[0]] + s[1..];
    }
  }

  /** The loop of log_vprintf that drops line ends. */
  method TrimmedLen(buf: array<char>, len: nat) returns (n: nat)
    requires len <= buf.Length
    ensures n <= len && buf[..n] == TrimEnd(buf[..len])
  {
    n := len;
    while n > 0 && IsLineEnd(buf[n - 1])
      invariant n <= len && TrimEnd(buf[..n]) == TrimEnd(buf[..len])
    {
      assert buf[..n][..n - 1] == buf[..n - 1];
      n := n - 1;
    }
  }

  /** The loop that steps over a colour code. */
  method CodeEnd(buf: array<char>, n: nat, code: nat) returns (i: nat)
    requires code <= n <= buf.Length
    ensures code <= i <= n && AfterCode(buf[..n][code..]) == buf[..n][i..]
  {
    ghost var s := buf[..n];
    i := code;
    while i < n && buf[i] != 'm'
      invariant code <= i <= n && AfterCode(s[i..]) == AfterCode(s[code..])
    {
      assert s[i..][1..] == s[i + 1..];
      i := i + 1;
    }
    if i < n {
      assert s[i..][1..] == s[i + 1..];
      i := i + 1;
    } else {
      assert s[i..] == [];
    }
  }

  /** The loop that copies what is no colour code. Its bound on the second buffer
      is never what ends it. */
  method Strip(buf: array<char>, n: nat, clean: array<char>) returns (ci: nat)
    requires buf != clean && n < LINE_MAX == buf.Length == clean.Length
    modifies clean
    ensures ci <= n && clean[..ci] == StripAnsi(buf[..n])
  {
    hide StripAnsi, AfterCode;
    ghost var s := buf[..n];
    var i := 0;
    ci := 0;
    assert s[0..] == s && clean[..ci] + StripAnsi(s) == StripAnsi(s);
    while i < n && ci < LINE_MAX - 1
      invariant ci <= i <= n && clean[..ci] + StripAnsi(s[i..]) == StripAnsi(s)
      decreases n - i
    {
      StripStep(s, i, clean[..ci]);
      if buf[i] == ESC && i + 1 < n && buf[i + 1] == '[' {
        i := CodeEnd(buf, n, i + 2);
      } else {
        ghost var before := clean[..ci];
        clean[ci] := buf[i];
        assert clean[..ci + 1] == before + [s[i]];
        ci := ci + 1;
        i := i + 1;
      }
    }
  }

  /** log_vprintf on its two 192-byte buffers: the line copied out is the C string
      of the second one. */
  method Clean(text: string) returns (line: string)
    ensures line == CleanLine(text)
  {
    hide TrimEnd, StripAnsi, CStr;
    var buf, clean := new char[LINE_MAX], new char[LINE_MAX];
    var w := Snprintf(buf, 0, LINE_MAX, text);
    var len := if w < LINE_MAX then w else LINE_MAX - 1;
    assert buf[..len] == Fitting(text);
    var n := TrimmedLen(buf, len);
    ghost var s := buf[..n];
    buf[n] := NUL;
    assert buf[..n] == s;
    var ci := Strip(buf, n, clean);
    ghost var kept := clean[..ci];
    clean[ci] := NUL;
    CStrCut(clean[..], ci);
    assert clean[..][..ci] == kept;
    line := CStr(clean[..]);
  }

  /** A NUL ends the C string for certain. */
  lemma {:induction false} CStrCut(mem: string, n: nat)
    requires n < |mem| && mem[n] == NUL
    ensures CStr(mem) == CStr(mem[..n])
  {
    if n > 0 {
      assert mem[..n][1..] == mem[1..][..n - 1];
      CStrCut(mem[1..], n - 1);
    }
  }

  lemma StripStep(s: string, i: nat, clean: string)
    requires i < |s| && clean + StripAnsi(s[i..]) == StripAnsi(s)
    ensures if s[i] == ESC && i + 1 < |s| && s[i + 1] == '['
            then clean + StripAnsi(AfterCode(s[i + 2..])) == StripAnsi(s)
            else clean + [s[i]] + StripAnsi(s[i + 1..]) == StripAnsi(s)
  {
    var t := s[i..];
    assert t[1..] == s[i + 1..];
    if s[i] == ESC && i + 1 < |s| && s[i + 1] == '[' {
      assert t[2..] == s[i + 2..];
    } else {
      assert clean + ([s[i]] + StripAnsi(s[i + 1..])) == clean + [s[i]] + StripAnsi(s[i + 1..]);
    }
  }

  /** The line of an entry relayed by the other chip. */
  function RelayedLine(level: char, ms: nat, tag: Option<string>, msg: string): (line: string)
    ensures |line| < LINE_MAX
  {
    CStr(Fitting([if level == NUL then 'I' else level] + " (" + Dec(ms % 0x1_0000_0000) + ") " +
                 (if tag.Some? then tag.value else "p4") + ": " + msg))
  }

  /** A relayed line reads "level (milliseconds) tag: message" as far as 191 bytes
      go; a missing level shows as I and a missing tag as p4. */
  lemma RelayedLineReads(level: char, ms: nat, tag: Option<string>, msg: string) returns (d: string)
    ensures AllDigits(d) && DecValue(d) == ms % 0x1_0000_0000
    ensures var text := [if level == NUL then 'I' else level] + " (" + d + ") " +
                        (if tag.Some? then tag.value else "p4") + ": " + msg;
            RelayedLine(level, ms, tag, msg) == CStr(if |text| <= 191 then text else text[..191])
  {
    hide Dec, DecValue, CStr;
    d := Dec(ms % 0x1_0000_0000);
    DecRoundTrip(ms % 0x1_0000_0000);
    var text := [if level == NUL then 'I' else level] + " (" + d + ") " +
                (if tag.Some? then tag.value else "p4") + ": " + msg;
    assert text[..|text|] == text;
  }
}
