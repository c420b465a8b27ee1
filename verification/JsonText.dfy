// JSON text (RFC 8259) as the encoders of the source emit it and as a client
// reads it: a decoder for string content (section 7), a parser for the values
// that occur, and a document form whose rendering the parser inverts.
module JsonText {
  import opened Bytes
  import opened Numbers
  import Utf8

  // ---- String content ------------------------------------------------------

  /** One character of string content: the bytes it denotes and its length in
      the text, or a syntax error. */
  datatype Piece = Bad | Good(bytes: string, len: nat)

  /** The character after a backslash, other than `u`; NUL when there is none. */
  function SimpleEscape(c: char): char {
    match c
    case '\"' => '\"'
    case '\\' => '\\'
    case '/' => '/'
    case 'b' => Byte(0x08)
    case 'f' => Byte(0x0C)
    case 'n' => '\n'
    case 'r' => '\r'
    case 't' => '\t'
    case _ => NUL
  }

  /** The code unit of "\uXXXX" at the start of `s`, -1 if there is none. */
  function CodeUnit(s: string): int {
    if |s| >= 6 && s[0] == '\\' && s[1] == 'u' && AllHex(s[2..6]) then
      HexQuad(DigitValue(s[2]), DigitValue(s[3]), DigitValue(s[4]), DigitValue(s[5]))
    else -1
  }

  function HexQuad(a: int, b: int, c: int, d: int): int {
    0x1000 * a + 0x100 * b + 0x10 * c + d
  }

  /** The character at the start of `s`. A surrogate pair is one character and a
      lone surrogate an error; bytes from 0x20 up stand for themselves. */
  function NextPiece(s: string): (p: Piece)
    requires s != []
    ensures p.Good? ==> 0 < p.len <= |s|
  {
    if s[0] == '\\' then
      if |s| < 2 then Bad
      else if s[1] != 'u' then
        if SimpleEscape(s[1]) == NUL then Bad else Good([SimpleEscape(s[1])], 2)
      else
        var v := CodeUnit(s);
        if 0xD800 <= v < 0xDC00 then
          var w := CodeUnit(s[6..]);
          if 0xDC00 <= w < 0xE000 then
            Good(Utf8.Encode(0x1_0000 + (v - 0xD800) * 0x400 + (w - 0xDC00)), 12)
          else Bad
        else if Utf8.IsScalar(v) then Good(Utf8.Encode(v), 6)
        else Bad
    else if s[0] == '\"' || s[0] < ' ' then Bad
    else Good([s[0]], 1)
  }

  /** The bytes that string content denotes. */
  function Unescape(s: string): Option<string> {
    if s == [] then Some([])
    else
      var p := NextPiece(s);
      if p.Bad? then None
      else
        var rest := Unescape(s[p.len..]);
        if rest.None? then None else Some(p.bytes + rest.value)
  }

  /** A whole character is recognised whatever follows it. */
  lemma NextPieceLocal(a: string, b: string)
    requires a != [] && NextPiece(a).Good?
    ensures NextPiece(a + b) == NextPiece(a)
  {
    hide CodeUnit, Utf8.Encode, SimpleEscape;
    var s := a + b;
    assert s[0] == a[0];
    if a[0] == '\\' && a[1] == 'u' {
      CodeUnitLocal(a, b);
      if 0xD800 <= CodeUnit(a) < 0xDC00 {
        assert s[6..] == a[6..] + b;
        CodeUnitLocal(a[6..], b);
      }
    }
  }

  lemma CodeUnitLocal(a: string, b: string)
    requires CodeUnit(a) >= 0
    ensures CodeUnit(a + b) == CodeUnit(a)
  {
    assert (a + b)[2..6] == a[2..6];
  }

  lemma {:induction false} UnescapeConcat(a: string, b: string)
    requires Unescape(a).Some?
    ensures Unescape(a + b) == if Unescape(b).None? then None else Some(Unescape(a).value + Unescape(b).value)
  {
    hide NextPiece;
    if a == [] {
      assert a + b == b;
      if Unescape(b).Some? { assert [] + Unescape(b).value == Unescape(b).value; }
    } else {
      var p := NextPiece(a);
      NextPieceLocal(a, b);
      assert (a + b)[p.len..] == a[p.len..] + b;
      UnescapeConcat(a[p.len..], b);
      if Unescape(b).Some? {
        assert p.bytes + (Unescape(a[p.len..]).value + Unescape(b).value) == Unescape(a).value + Unescape(b).value;
      }
    }
  }

  lemma {:induction false} UnescapeOne(e: string)
    requires e != [] && NextPiece(e).Good? && NextPiece(e).len == |e|
    ensures Unescape(e) == Some(NextPiece(e).bytes)
  {
    assert e[|e|..] == [];
    assert NextPiece(e).bytes + [] == NextPiece(e).bytes;
  }

  // ---- Values --------------------------------------------------------------

  datatype Json =
    | JStr(bytes: string)
    | JInt(v: int)
    | JBool(b: bool)
    | JArr(items: seq<Json>)
    | JObj(members: seq<Member>)
  datatype Member = Member(key: string, value: Json)

  datatype Parsed<+T> = Fail | Got(value: T, rest: string)

  /** String content up to the closing quote. */
  function ParseString(s: string): (r: Parsed<string>)
    ensures r.Got? ==> |r.rest| < |s|
  {
    if s == [] then Fail
    else if s[0] == '\"' then Got([], s[1..])
    else
      var p := NextPiece(s);
      if p.Bad? then Fail
      else
        var t := ParseString(s[p.len..]);
        if t.Fail? then Fail else Got(p.bytes + t.value, t.rest)
  }

  /** The longest prefix of decimal digits. */
  function DigitRun(s: string): (r: string)
    ensures r <= s && AllDigits(r)
    ensures |r| < |s| ==> !IsDigit(s[|r|])
  {
    if s != [] && IsDigit(s[0]) then
      var t := DigitRun(s[1..]);
      [s[0]] + t
    else []
  }

  /** A natural number without a leading zero. */
  function ParseNat(s: string): (r: Parsed<nat>)
    ensures r.Got? ==> |r.rest| < |s|
  {
    var d := DigitRun(s);
    if d == [] || (|d| > 1 && d[0] == '0') then Fail else Got(DecValue(d), s[|d|..])
  }

  function Negated(n: int): int {
    -n
  }

  function ParseInt(s: string): (r: Parsed<int>)
    ensures r.Got? ==> |r.rest| < |s|
  {
    if s != [] && s[0] == '-' then
      var n := ParseNat(s[1..]);
      if n.Fail? then Fail else Got(Negated(n.value), n.rest)
    else
      var n := ParseNat(s);
      if n.Fail? then Fail else Got(n.value, n.rest)
  }

  /** A value, without white space. */
  function ParseValue(s: string): (r: Parsed<Json>)
    ensures r.Got? ==> |r.rest| < |s|
    decreases |s|, 0
  {
    if s == [] then Fail
    else if s[0] == '\"' then
      var t := ParseString(s[1..]);
      if t.Fail? then Fail else Got(JStr(t.value), t.rest)
    else if s[0] == '[' then
      if |s| > 1 && s[1] == ']' then Got(JArr([]), s[2..])
      else
        var t := ParseItems(s[1..]);
        if t.Fail? then Fail else Got(JArr(t.value), t.rest)
    else if s[0] == '{' then
      if |s| > 1 && s[1] == '}' then Got(JObj([]), s[2..])
      else
        var t := ParseMembers(s[1..]);
        if t.Fail? then Fail else Got(JObj(t.value), t.rest)
    else if "true" <= s then Got(JBool(true), s[4..])
    else if "false" <= s then Got(JBool(false), s[5..])
    else
      var t := ParseInt(s);
      if t.Fail? then Fail else Got(JInt(t.value), t.rest)
  }

  /** One or more values up to the closing bracket. */
  function ParseItems(s: string): (r: Parsed<seq<Json>>)
    ensures r.Got? ==> |r.rest| < |s|
    decreases |s|, 1
  {
    var v := ParseValue(s);
    if v.Fail? || v.rest == [] then Fail
    else if v.rest[0] == ']' then Got([v.value], v.rest[1..])
    else if v.rest[0] != ',' then Fail
    else
      var t := ParseItems(v.rest[1..]);
      if t.Fail? then Fail else Got([v.value] + t.value, t.rest)
  }

  /** One member: a quoted key, a colon and a value. */
  function ParseMember(s: string): (r: Parsed<Member>)
    ensures r.Got? ==> |r.rest| < |s|
    decreases |s|, 1
  {
    if s == [] || s[0] != '\"' then Fail
    else
      var k := ParseString(s[1..]);
      if k.Fail? || k.rest == [] || k.rest[0] != ':' then Fail
      else
        var v := ParseValue(k.rest[1..]);
        if v.Fail? then Fail else Got(Member(k.value, v.value), v.rest)
  }

  /** One or more members up to the closing brace. */
  function ParseMembers(s: string): (r: Parsed<seq<Member>>)
    ensures r.Got? ==> |r.rest| < |s|
    decreases |s|, 2
  {
    var m := ParseMember(s);
    if m.Fail? || m.rest == [] then Fail
    else if m.rest[0] == '}' then Got([m.value], m.rest[1..])
    else if m.rest[0] != ',' then Fail
    else
      var t := ParseMembers(m.rest[1..]);
      if t.Fail? then Fail else Got([m.value] + t.value, t.rest)
  }

  /** The value of a whole text: one value and nothing behind it. */
  function Parse(s: string): Option<Json> {
    var r := ParseValue(s);
    if r.Got? && r.rest == [] then Some(r.value) else None
  }

  // ---- Documents -----------------------------------------------------------

  /** A document to be written: strings and keys are already escaped. */
  datatype Doc =
    | DStr(esc: string)
    | DInt(v: int)
    | DBool(b: bool)
    | DArr(items: seq<Doc>)
    | DObj(fields: seq<Field>)
  datatype Field = Field(key: string, doc: Doc)

  function Quoted(esc: string): string {
    "\"" + esc + "\""
  }

  function Render(d: Doc): string {
    match d
    case DStr(esc) => Quoted(esc)
    case DInt(v) => Signed(v)
    case DBool(b) => if b then "true" else "false"
    case DArr(items) => "[" + RenderItems(items) + "]"
    case DObj(fields) => "{" + RenderFields(fields) + "}"
  }

  function RenderItems(items: seq<Doc>): string {
    if items == [] then []
    else if |items| == 1 then Render(items[0])
    else Render(items[0]) + "," + RenderItems(items[1..])
  }

  function RenderField(f: Field): string {
    Quoted(f.key) + ":" + Render(f.doc)
  }

  function RenderFields(fields: seq<Field>): string {
    if fields == [] then []
    else if |fields| == 1 then RenderField(fields[0])
    else RenderField(fields[0]) + "," + RenderFields(fields[1..])
  }

  /** Every escaped string of the document is valid string content. */
  predicate WellFormed(d: Doc) {
    match d
    case DStr(esc) => Unescape(esc).Some?
    case DInt(_) => true
    case DBool(_) => true
    case DArr(items) => forall i :: 0 <= i < |items| ==> WellFormed(items[i])
    case DObj(fields) => forall i :: 0 <= i < |fields| ==> WellFormedField(fields[i])
  }

  predicate WellFormedField(f: Field) {
    Unescape(f.key).Some? && WellFormed(f.doc)
  }

  /** The value a document denotes. */
  function Meaning(d: Doc): Json
    requires WellFormed(d)
  {
    match d
    case DStr(esc) => JStr(Unescape(esc).value)
    case DInt(v) => JInt(v)
    case DBool(b) => JBool(b)
    case DArr(items) => JArr(seq(|items|, i requires 0 <= i < |items| => Meaning(items[i])))
    case DObj(fields) => JObj(seq(|fields|, i requires 0 <= i < |fields| => FieldMeaning(fields[i])))
  }

  function FieldMeaning(f: Field): Member
    requires WellFormedField(f)
  {
    Member(Unescape(f.key).value, Meaning(f.doc))
  }

  function Meanings(items: seq<Doc>): (r: seq<Json>)
    requires forall i :: 0 <= i < |items| ==> WellFormed(items[i])
    ensures |r| == |items|
  {
    seq(|items|, i requires 0 <= i < |items| => Meaning(items[i]))
  }

  function FieldMeanings(fields: seq<Field>): (r: seq<Member>)
    requires forall i :: 0 <= i < |fields| ==> WellFormedField(fields[i])
    ensures |r| == |fields|
  {
    seq(|fields|, i requires 0 <= i < |fields| => FieldMeaning(fields[i]))
  }

  /** A number printed before `rest` cannot be confused with it. */
  predicate NoDigit(rest: string) {
    rest == [] || !IsDigit(rest[0])
  }

  lemma {:induction false} ParseQuoted(esc: string, rest: string)
    requires Unescape(esc).Some?
    ensures ParseString(esc + "\"" + rest) == Got(Unescape(esc).value, rest)
  {
    hide NextPiece;
    var s := esc + "\"" + rest;
    if esc == [] {
      assert s == "\"" + rest;
      assert s[1..] == rest;
    } else {
      var p := NextPiece(esc);
      assert esc[0] != '\"' by { QuoteEnds(esc); }
      assert s == esc + ("\"" + rest);
      NextPieceLocal(esc, "\"" + rest);
      assert s[p.len..] == esc[p.len..] + "\"" + rest;
      ParseQuoted(esc[p.len..], rest);
    }
  }

  lemma QuoteEnds(s: string)
    requires s != [] && NextPiece(s).Good?
    ensures s[0] != '\"'
  {
  }

  lemma {:induction false} DigitRunOf(d: string, rest: string)
    requires AllDigits(d) && NoDigit(rest)
    ensures DigitRun(d + rest) == d
  {
    var s := d + rest;
    if d == [] {
      assert s == rest;
    } else {
      assert s[0] == d[0] && s[1..] == d[1..] + rest;
      DigitRunOf(d[1..], rest);
    }
  }

  lemma {:induction false} ParseDec(n: nat, rest: string)
    requires NoDigit(rest)
    ensures ParseNat(Dec(n) + rest) == Got(n, rest)
  {
    DecRoundTrip(n);
    DigitRunOf(Dec(n), rest);
    assert (Dec(n) + rest)[|Dec(n)|..] == rest;
  }

  lemma ParseSigned(v: int, rest: string)
    requires NoDigit(rest)
    ensures ParseInt(Signed(v) + rest) == Got(v, rest)
    ensures var c := (Signed(v) + rest)[0]; c == '-' || IsDigit(c)
  {
    hide Dec, DecValue, ParseNat;
    var n := if v < 0 then -v else v;
    ParseDec(n, rest);
    DecRoundTrip(n);
    assert (Dec(n) + rest)[0] == Dec(n)[0];
    assert IsDigit(Dec(n)[0]);
    if v < 0 {
      assert (Signed(v) + rest)[1..] == Dec(n) + rest;
    }
  }

  /** Parsing inverts rendering. */
  lemma {:induction false} ParseRender(d: Doc, rest: string)
    requires WellFormed(d) && NoDigit(rest)
    ensures ParseValue(Render(d) + rest) == Got(Meaning(d), rest)
    decreases d, 4
  {
    hide NextPiece, DecValue, Signed, ParseItems, ParseMembers, ParseString, ParseInt;
    match d
    case DStr(esc) =>
      assert (Render(d) + rest)[1..] == esc + "\"" + rest;
      ParseQuoted(esc, rest);
    case DInt(v) =>
      ParseSigned(v, rest);
    case DBool(b) =>
    case DArr(items) =>
      ParseRenderArray(items, rest);
      assert Meaning(d) == JArr(Meanings(items));
    case DObj(fields) =>
      ParseRenderObject(fields, rest);
      assert Meaning(d) == JObj(FieldMeanings(fields));
  }

  lemma {:induction false} ParseRenderArray(items: seq<Doc>, rest: string)
    requires forall i :: 0 <= i < |items| ==> WellFormed(items[i])
    ensures ParseValue("[" + RenderItems(items) + "]" + rest) == Got(JArr(Meanings(items)), rest)
    decreases items, 2
  {
    hide Meanings, ParseItems, WellFormed;
    var s := "[" + RenderItems(items) + "]" + rest;
    if items == [] {
      assert s == "[]" + rest;
      assert s[1] == ']' && s[2..] == rest;
      assert Meanings(items) == [];
    } else {
      assert s[1..] == RenderItems(items) + "]" + rest;
      FirstOfItems(items);
      assert s[1] == RenderItems(items)[0];
      ParseRenderItems(items, rest);
    }
  }

  lemma {:induction false} ParseRenderObject(fields: seq<Field>, rest: string)
    requires forall i :: 0 <= i < |fields| ==> WellFormedField(fields[i])
    ensures ParseValue("{" + RenderFields(fields) + "}" + rest) == Got(JObj(FieldMeanings(fields)), rest)
    decreases fields, 3
  {
    hide FieldMeanings, ParseMembers, WellFormedField;
    var s := "{" + RenderFields(fields) + "}" + rest;
    if fields == [] {
      assert s == "{}" + rest;
      assert s[1] == '}' && s[2..] == rest;
      assert FieldMeanings(fields) == [];
    } else {
      assert s[1..] == RenderFields(fields) + "}" + rest;
      assert s[1] == RenderFields(fields)[0] == '\"';
      ParseRenderFields(fields, rest);
    }
  }

  lemma {:induction false} FirstOfValue(d: Doc)
    ensures Render(d) != [] && Render(d)[0] != ']'
  {
    if d.DInt? {
      ParseSigned(d.v, []);
      assert Signed(d.v) + [] == Signed(d.v);
    }
  }

  lemma {:induction false} FirstOfItems(items: seq<Doc>)
    requires items != []
    ensures RenderItems(items) != [] && RenderItems(items)[0] != ']'
  {
    FirstOfValue(items[0]);
  }

  lemma MeaningsCons(items: seq<Doc>)
    requires items != [] && forall i :: 0 <= i < |items| ==> WellFormed(items[i])
    ensures Meanings(items) == [Meaning(items[0])] + Meanings(items[1..])
    ensures Meanings(items[1..]) == Meanings(items)[1..]
  {
  }

  lemma FieldMeaningsCons(fields: seq<Field>)
    requires fields != [] && forall i :: 0 <= i < |fields| ==> WellFormedField(fields[i])
    ensures FieldMeanings(fields) == [FieldMeaning(fields[0])] + FieldMeanings(fields[1..])
    ensures FieldMeanings(fields[1..]) == FieldMeanings(fields)[1..]
  {
  }

  lemma {:induction false} ParseRenderItems(items: seq<Doc>, rest: string)
    requires items != [] && forall i :: 0 <= i < |items| ==> WellFormed(items[i])
    ensures ParseItems(RenderItems(items) + "]" + rest) == Got(Meanings(items), rest)
    decreases items, 1
  {
    hide Meanings, Meaning, Render, WellFormed, ParseValue;
    MeaningsCons(items);
    var s := RenderItems(items) + "]" + rest;
    if |items| == 1 {
      assert s == Render(items[0]) + ("]" + rest);
      ParseRender(items[0], "]" + rest);
      assert ("]" + rest)[1..] == rest;
      assert Meanings(items) == [Meaning(items[0])];
    } else {
      var tail := "," + RenderItems(items[1..]) + "]" + rest;
      assert s == Render(items[0]) + tail;
      ParseRender(items[0], tail);
      assert tail[1..] == RenderItems(items[1..]) + "]" + rest;
      ParseRenderItems(items[1..], rest);
    }
  }

  lemma {:induction false} ParseRenderField(f: Field, rest: string)
    requires WellFormedField(f) && NoDigit(rest)
    ensures ParseMember(RenderField(f) + rest) == Got(FieldMeaning(f), rest)
    decreases f, 1
  {
    hide Render, WellFormed, ParseValue, ParseString, ParseMember, Unescape;
    var s, x := RenderField(f) + rest, Render(f.doc);
    var tail := ":" + x + rest;
    assert s[0] == '\"' && s[1..] == f.key + "\"" + tail;
    ParseQuoted(f.key, tail);
    assert tail[0] == ':' && tail[1..] == x + rest;
    ParseRender(f.doc, rest);
    MemberParsed(s, Unescape(f.key).value, tail, Meaning(f.doc), rest);
  }

  lemma {:induction false} MemberParsed(s: string, key: string, tail: string, v: Json, rest: string)
    requires s != [] && s[0] == '\"' && ParseString(s[1..]) == Got(key, tail)
    requires tail != [] && tail[0] == ':' && ParseValue(tail[1..]) == Got(v, rest)
    ensures ParseMember(s) == Got(Member(key, v), rest)
  {
    hide ParseString, ParseValue;
  }

  lemma {:induction false} ParseRenderFields(fields: seq<Field>, rest: string)
    requires fields != [] && forall i :: 0 <= i < |fields| ==> WellFormedField(fields[i])
    ensures ParseMembers(RenderFields(fields) + "}" + rest) == Got(FieldMeanings(fields), rest)
    decreases fields, 2
  {
    hide FieldMeanings, FieldMeaning, RenderField, WellFormedField, ParseMember;
    FieldMeaningsCons(fields);
    var s := RenderFields(fields) + "}" + rest;
    if |fields| == 1 {
      assert s == RenderField(fields[0]) + ("}" + rest);
      ParseRenderField(fields[0], "}" + rest);
      assert ("}" + rest)[1..] == rest;
      assert FieldMeanings(fields) == [FieldMeaning(fields[0])];
    } else {
      var tail := "," + RenderFields(fields[1..]) + "}" + rest;
      assert s == RenderField(fields[0]) + tail;
      ParseRenderField(fields[0], tail);
      assert tail[1..] == RenderFields(fields[1..]) + "}" + rest;
      ParseRenderFields(fields[1..], rest);
    }
  }

  /** The text of a document parses to its meaning. */
  lemma {:induction false} ParseDocument(d: Doc)
    requires WellFormed(d)
    ensures Parse(Render(d)) == Some(Meaning(d))
  {
    ParseRender(d, []);
    assert Render(d) + [] == Render(d);
  }
}
