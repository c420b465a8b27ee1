// The escaping of JsonWriter::str (main/json_buf.h): what it emits for a source
// string and what a reader decodes from that.
module StringEscape {
  import opened Bytes
  import opened Numbers
  import opened JsonText
  import Utf8

  /** One step of the escaper: the text emitted and the source bytes consumed. */
  datatype Chunk = Chunk(text: string, used: nat)

  const REPLACEMENT: string := [Byte(0xEF), Byte(0xBF), Byte(0xBD)]

  /** The letter of a two-character escape of JsonWriter::str, NUL for none. */
  function ShortEscape(c: char): char {
    if c == '\"' then '\"' else if c == '\\' then '\\'
    else if c == '\n' then 'n' else if c == '\r' then 'r' else if c == '\t' then 't'
    else NUL
  }

  /** "\u00XX" for a control character. */
  function ControlEscape(c: char): string {
    "\\u" + Hex(c as int, 4, false)
  }

  function NextChunk(s: string): (p: Chunk)
    requires s != []
    ensures 0 < p.used <= |s|
  {
    var c := s[0];
    if ShortEscape(c) != NUL then Chunk(['\\', ShortEscape(c)], 1)
    else if c < ' ' then Chunk(ControlEscape(c), 1)
    else if c as int < 0x80 then Chunk([c], 1)
    else if Utf8.PrefixLen(s) > 0 then Chunk(s[..Utf8.PrefixLen(s)], Utf8.PrefixLen(s))
    else Chunk("\\ufffd", 1)
  }

  /** The text JsonWriter::str appends for the source string `s`. */
  function Escaped(s: string): string {
    if s == [] then [] else NextChunk(s).text + Escaped(s[NextChunk(s).used..])
  }

  /** `s` with every byte that starts no valid sequence replaced by U+FFFD. */
  function Repair(s: string): string {
    if s == [] then []
    else if Utf8.PrefixLen(s) > 0 then s[..Utf8.PrefixLen(s)] + Repair(s[Utf8.PrefixLen(s)..])
    else REPLACEMENT + Repair(s[1..])
  }

  /** Bytes that stand for themselves inside a JSON string. */
  predicate Plain(s: string) {
    forall k :: 0 <= k < |s| ==> s[k] >= ' ' && s[k] != '\"' && s[k] != '\\'
  }

  lemma {:induction false} UnescapePlain(s: string)
    requires Plain(s)
    ensures Unescape(s) == Some(s)
  {
    if s != [] {
      UnescapePlain(s[1..]);
      assert s == [s[0]] + s[1..];
    }
  }

  lemma ControlDigits(c: char)
    requires c as int < 0x100
    ensures Hex(c as int, 4, false) == ['0', '0', HexDigit(c as int / 16, false), HexDigit(c as int % 16, false)]
  {
    var n := c as int;
    assert seq(2, _ => '0') == ['0', '0'] && seq(3, _ => '0') == ['0', '0', '0']
           && seq(4, _ => '0') == ['0', '0', '0', '0'];
    if n >= 16 {
      assert Hex(n / 16, 3, false) == Hex(0, 2, false) + [HexDigit(n / 16, false)];
    } else if n > 0 {
      assert Hex(n, 4, false) == Hex(0, 3, false) + [HexDigit(n, false)];
    }
  }

  lemma CodeUnitOfByte(n: nat)
    requires n < 0x80
    ensures CodeUnit(['\\', 'u', '0', '0', HexDigit(n / 16, false), HexDigit(n % 16, false)]) == n
  {
    var e := ['\\', 'u', '0', '0', HexDigit(n / 16, false), HexDigit(n % 16, false)];
    assert e[2..6] == ['0', '0', HexDigit(n / 16, false), HexDigit(n % 16, false)];
  }

  lemma ControlDecodes(c: char)
    requires c as int < 0x80
    ensures |ControlEscape(c)| == 6
    ensures NextPiece(ControlEscape(c)) == Good([c], 6)
  {
    hide Hex, HexDigit, CodeUnit;
    var n := c as int;
    ControlDigits(c);
    CodeUnitOfByte(n);
    assert ControlEscape(c) == ['\\', 'u', '0', '0', HexDigit(n / 16, false), HexDigit(n % 16, false)];
    assert Utf8.Encode(n) == [c];
  }

  lemma ReplacementDecodes()
    ensures NextPiece("\\ufffd") == Good(REPLACEMENT, 6)
  {
    var e := "\\ufffd";
    assert e[2..6] == "fffd";
    assert CodeUnit(e) == 0xFFFD;
  }

  lemma ShortDecodes(c: char)
    requires ShortEscape(c) != NUL
    ensures NextPiece(['\\', ShortEscape(c)]) == Good([c], 2)
  {
  }

  /** Each chunk is valid UTF-8 and decodes to the repaired source bytes. */
  lemma ChunkDecodes(s: string)
    requires s != []
    ensures Utf8.Valid(NextChunk(s).text)
    ensures Unescape(NextChunk(s).text) ==
            Some(if Utf8.PrefixLen(s) > 0 then s[..Utf8.PrefixLen(s)] else REPLACEMENT)
    ensures Utf8.PrefixLen(s) > 0 ==> NextChunk(s).used == Utf8.PrefixLen(s)
  {
    hide Utf8.PrefixLen, NextPiece, Hex;
    var c, t := s[0], NextChunk(s).text;
    if c as int < 0x80 {
      Utf8.PrefixOfAscii(s);
      assert s[..1] == [c];
      if ShortEscape(c) != NUL {
        ShortDecodes(c);
        UnescapeOne(t);
      } else if c < ' ' {
        ControlDecodes(c);
        ControlDigits(c);
        UnescapeOne(t);
      } else {
        UnescapePlain(t);
      }
      Utf8.AsciiValid(t);
    } else if Utf8.PrefixLen(s) > 0 {
      Utf8.PrefixShape(s);
      UnescapePlain(t);
      Utf8.ValidFirst(s);
    } else {
      ReplacementDecodes();
      UnescapeOne(t);
      Utf8.AsciiValid(t);
    }
  }

  /** The forms str uses: two characters where JSON has a short escape that the
      writer knows, "\\u00xx" in lower case for other controls, "\\ufffd" for a byte
      that starts no character, and the character itself otherwise. */
  lemma EscapeForms(s: string)
    requires s != []
    ensures var c, t := s[0], NextChunk(s).text;
            && (c == '\"' ==> t == "\\\"") && (c == '\\' ==> t == "\\\\")
            && (c == '\n' ==> t == "\\n") && (c == '\r' ==> t == "\\r") && (c == '\t' ==> t == "\\t")
            && (c < ' ' && c != '\n' && c != '\r' && c != '\t' ==>
                  t == "\\u00" + ["0123456789abcdef"[c as int / 16]] + ["0123456789abcdef"[c as int % 16]])
            && (' ' <= c && c as int < 0x80 && c != '\"' && c != '\\' ==> t == [c])
            && (c as int >= 0x80 && Utf8.PrefixLen(s) == 0 ==> t == "\\ufffd")
            && (c as int >= 0x80 && Utf8.PrefixLen(s) > 0 ==> t == s[..Utf8.PrefixLen(s)])
  {
    hide Utf8.PrefixLen, Hex;
    if s[0] < ' ' { ControlDigits(s[0]); }
  }

  /** What JsonWriter::str appends is valid UTF-8 and valid string content that
      decodes to the repaired source, for every byte string. */
  lemma {:induction false} EscapedDecodes(s: string)
    ensures Utf8.Valid(Escaped(s))
    ensures Unescape(Escaped(s)) == Some(Repair(s))
  {
    hide Utf8.PrefixLen, NextPiece, NextChunk;
    if s != [] {
      var p := NextChunk(s);
      ChunkDecodes(s);
      EscapedDecodes(s[p.used..]);
      Utf8.ValidConcat(p.text, Escaped(s[p.used..]));
      UnescapeConcat(p.text, Escaped(s[p.used..]));
      if Utf8.PrefixLen(s) == 0 { BadChunk(s); }
    }
  }

  lemma BadChunk(s: string)
    requires s != [] && Utf8.PrefixLen(s) == 0
    ensures NextChunk(s).used == 1
  {
    if s[0] as int < 0x80 { Utf8.PrefixOfAscii(s); }
  }

  /** Repairing yields valid UTF-8 and changes nothing exactly when the source
      was valid already. */
  lemma {:induction false} RepairIdentity(s: string)
    ensures Utf8.Valid(Repair(s))
    ensures Utf8.Valid(s) <==> Repair(s) == s
  {
    hide Utf8.PrefixLen;
    if s != [] {
      var n := Utf8.PrefixLen(s);
      if n > 0 {
        RepairIdentity(s[n..]);
        Utf8.ValidFirst(s);
        Utf8.ValidConcat(s[..n], Repair(s[n..]));
        assert s == s[..n] + s[n..];
      } else {
        RepairIdentity(s[1..]);
        ReplacementValid();
        Utf8.ValidConcat(REPLACEMENT, Repair(s[1..]));
      }
    }
  }

  lemma ReplacementValid()
    ensures Utf8.Valid(REPLACEMENT)
  {
    assert Utf8.Encode(0xFFFD) == REPLACEMENT;
    assert Utf8.Payload(REPLACEMENT) == 0xFFFD;
    assert REPLACEMENT[3..] == [];
  }
}
