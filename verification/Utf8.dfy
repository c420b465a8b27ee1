// UTF-8 as sections 3 and 4 of RFC 3629 define it, and the validator and the
// bounded copy of main/json_buf.h.
module Utf8 {
  import opened Bytes

  /** A Unicode scalar value: no surrogate, nothing above U+10FFFF. */
  predicate IsScalar(v: int) {
    0 <= v <= 0x10FFFF && !(0xD800 <= v <= 0xDFFF)
  }

  /** The octet sequence of a scalar value (the table in section 3 of RFC 3629). */
  function Encode(v: int): (r: string)
    requires IsScalar(v)
    ensures 1 <= |r| <= 4
  {
    if v < 0x80 then
      [Byte(v)]
    else if v < 0x800 then
      [Byte(0xC0 + v / 0x40), Byte(0x80 + v % 0x40)]
    else if v < 0x1_0000 then
      [Byte(0xE0 + v / 0x1000), Byte(0x80 + v / 0x40 % 0x40), Byte(0x80 + v % 0x40)]
    else
      [Byte(0xF0 + v / 0x4_0000), Byte(0x80 + v / 0x1000 % 0x40), Byte(0x80 + v / 0x40 % 0x40), Byte(0x80 + v % 0x40)]
  }

  /** `s` starts with the encoding of `v`. */
  predicate StartsWith(s: string, v: int) {
    IsScalar(v) && Encode(v) <= s
  }

  /** The payload bits of the sequence whose shape the first byte announces, or -1. */
  function Payload(s: string): int
    requires s != []
  {
    var c := s[0] as int;
    if c < 0x80 then c
    else if 0xC0 <= c < 0xE0 && |s| >= 2 then Payload2(c, s[1] as int)
    else if 0xE0 <= c < 0xF0 && |s| >= 3 then Payload3(c, s[1] as int, s[2] as int)
    else if 0xF0 <= c < 0xF8 && |s| >= 4 then Payload4(c, s[1] as int, s[2] as int, s[3] as int)
    else -1
  }

  function Payload2(a: int, b: int): int {
    (a - 0xC0) * 0x40 + (b - 0x80)
  }

  function Payload3(a: int, b: int, c: int): int {
    (a - 0xE0) * 0x1000 + (b - 0x80) * 0x40 + (c - 0x80)
  }

  function Payload4(a: int, b: int, c: int, d: int): int {
    (a - 0xF0) * 0x4_0000 + (b - 0x80) * 0x1000 + (c - 0x80) * 0x40 + (d - 0x80)
  }

  /** Length of the encoded scalar value at the start of `s`, 0 if there is none. */
  function PrefixLen(s: string): (n: nat)
    ensures n <= |s| && n <= 4
  {
    if s == [] then 0
    else
      var v := Payload(s);
      if StartsWith(s, v) then |Encode(v)| else 0
  }

  /** UTF-8 text: a concatenation of encoded scalar values. */
  predicate Valid(s: string) {
    s == [] || (PrefixLen(s) > 0 && Valid(s[PrefixLen(s)..]))
  }

  /** The payload of an encoding is the value encoded. */
  lemma PayloadOfEncoding(s: string, v: int)
    requires StartsWith(s, v)
    ensures s != [] && Payload(s) == v
  {
    var e := Encode(v);
    assert s[0] == e[0];
    if v < 0x80 {
    } else if v < 0x800 {
      assert s[1] == e[1];
      assert v == v / 0x40 * 0x40 + v % 0x40;
    } else if v < 0x1_0000 {
      assert s[1] == e[1] && s[2] == e[2];
    } else {
      assert s[1] == e[1] && s[2] == e[2] && s[3] == e[3];
      Split4(v);
    }
  }

  lemma Split4(v: nat)
    requires v < 0x20_0000
    ensures v == v / 0x4_0000 * 0x4_0000 + v / 0x1000 % 0x40 * 0x1000 + v / 0x40 % 0x40 * 0x40 + v % 0x40
    ensures v / 0x4_0000 < 8
  {
    assert v / 0x1000 == v / 0x40 / 0x40;
    assert v / 0x4_0000 == v / 0x1000 / 0x40;
  }

  /** PrefixLen is positive exactly when some scalar value is encoded at the
      start of `s`; that value is unique, so no encoding is a prefix of another. */
  lemma PrefixLenExact(s: string)
    ensures PrefixLen(s) > 0 <==> exists v :: StartsWith(s, v)
    ensures forall v :: StartsWith(s, v) ==> PrefixLen(s) == |Encode(v)| && Encode(v) == s[..PrefixLen(s)]
  {
    forall v | StartsWith(s, v)
      ensures s != [] && PrefixLen(s) == |Encode(v)| && Encode(v) == s[..PrefixLen(s)]
    {
      PayloadOfEncoding(s, v);
    }
    if PrefixLen(s) > 0 {
      assert StartsWith(s, Payload(s));
    }
  }

  /** Only the bytes of the sequence itself decide. */
  lemma PrefixLenLocal(s: string, t: string)
    requires PrefixLen(s) > 0
    requires |t| >= PrefixLen(s) && t[..PrefixLen(s)] == s[..PrefixLen(s)]
    ensures PrefixLen(t) == PrefixLen(s)
  {
    var v := Payload(s);
    assert Encode(v) == s[..PrefixLen(s)] == t[..PrefixLen(s)];
    assert StartsWith(t, v);
    PayloadOfEncoding(t, v);
  }

  predicate IsTail(b: char) {
    0x80 <= b as int <= 0xBF
  }

  lemma PrefixShape(s: string)
    requires PrefixLen(s) > 0
    ensures s[0] as int < 0x80 ==> PrefixLen(s) == 1
    ensures s[0] as int >= 0x80 ==> PrefixLen(s) > 1 && 0xC2 <= s[0] as int <= 0xF4
    ensures forall k :: 1 <= k < PrefixLen(s) ==> IsTail(s[k])
  {
    var v := Payload(s);
    assert Encode(v) == s[..PrefixLen(s)];
    assert forall k :: 0 <= k < PrefixLen(s) ==> s[k] == Encode(v)[k];
  }

  lemma PrefixOfAscii(s: string)
    requires s != [] && s[0] as int < 0x80
    ensures PrefixLen(s) == 1
  {
    assert Encode(s[0] as int) == [s[0]];
    assert StartsWith(s, s[0] as int);
  }

  // ---- The validator -------------------------------------------------------

  /** The number of continuation bytes for a lead byte, 0 for a byte that leads
      nothing, and the range of the first continuation byte. */
  function Need(c: int): nat {
    if 0xC2 <= c <= 0xDF then 1
    else if 0xE0 <= c <= 0xEF then 2
    else if 0xF0 <= c <= 0xF4 then 3
    else 0
  }

  function Low(c: int): int {
    if c == 0xE0 then 0xA0 else if c == 0xF0 then 0x90 else 0x80
  }

  function High(c: int): int {
    if c == 0xED then 0x9F else if c == 0xF4 then 0x8F else 0xBF
  }

  predicate ContinuesAt(s: string, k: nat)
    requires 0 < |s|
  {
    k < |s| && if k == 1 then Low(s[0] as int) <= s[k] as int <= High(s[0] as int) else IsTail(s[k])
  }

  lemma Ranges2(a: char, b: char)
    ensures 0xC2 <= a as int <= 0xDF && IsTail(b) <==>
            var v := Payload2(a as int, b as int); 0xC0 <= a as int < 0xE0 && IsScalar(v) && Encode(v) == [a, b]
  {
  }

  lemma Ranges3(a: char, b: char, c: char)
    ensures 0xE0 <= a as int <= 0xEF && Low(a as int) <= b as int <= High(a as int) && IsTail(c) <==>
            var v := Payload3(a as int, b as int, c as int);
            0xE0 <= a as int < 0xF0 && IsScalar(v) && Encode(v) == [a, b, c]
  {
    var v := Payload3(a as int, b as int, c as int);
    if 0xE0 <= a as int <= 0xEF && IsTail(b) && IsTail(c) {
      assert v / 0x40 == (a as int - 0xE0) * 0x40 + (b as int - 0x80);
      assert v / 0x1000 == a as int - 0xE0;
    }
  }

  lemma Ranges4(a: char, b: char, c: char, d: char)
    ensures 0xF0 <= a as int <= 0xF4 && Low(a as int) <= b as int <= High(a as int) && IsTail(c) && IsTail(d) <==>
            var v := Payload4(a as int, b as int, c as int, d as int);
            0xF0 <= a as int < 0xF8 && IsScalar(v) && Encode(v) == [a, b, c, d]
  {
    var v := Payload4(a as int, b as int, c as int, d as int);
    if 0xF0 <= a as int <= 0xF4 && IsTail(b) && IsTail(c) && IsTail(d) {
      assert v / 0x40 == (a as int - 0xF0) * 0x1000 + (b as int - 0x80) * 0x40 + (c as int - 0x80);
      assert v / 0x1000 == (a as int - 0xF0) * 0x40 + (b as int - 0x80);
      assert v / 0x4_0000 == a as int - 0xF0;
    }
  }

  /** The byte ranges of section 4 of RFC 3629 describe the encodings. */
  lemma RangesExact(s: string)
    requires s != [] && s[0] as int >= 0x80
    ensures PrefixLen(s) > 0 <==>
            Need(s[0] as int) > 0 && forall k :: 1 <= k <= Need(s[0] as int) ==> ContinuesAt(s, k)
    ensures PrefixLen(s) > 0 ==> PrefixLen(s) == Need(s[0] as int) + 1
  {
    var c := s[0] as int;
    if 0xC0 <= c < 0xE0 && |s| >= 2 {
      Ranges2(s[0], s[1]);
      assert s[..2] == [s[0], s[1]];
      assert ContinuesAt(s, 1) <==> IsTail(s[1]);
    } else if 0xE0 <= c < 0xF0 && |s| >= 3 {
      Ranges3(s[0], s[1], s[2]);
      assert s[..3] == [s[0], s[1], s[2]];
      assert ContinuesAt(s, 1) && ContinuesAt(s, 2) <==> Low(c) <= s[1] as int <= High(c) && IsTail(s[2]);
    } else if 0xF0 <= c < 0xF8 && |s| >= 4 {
      Ranges4(s[0], s[1], s[2], s[3]);
      assert s[..4] == [s[0], s[1], s[2], s[3]];
      assert ContinuesAt(s, 1) && ContinuesAt(s, 2) && ContinuesAt(s, 3) <==>
             Low(c) <= s[1] as int <= High(c) && IsTail(s[2]) && IsTail(s[3]);
    } else {
      assert Need(c) > 0 ==> !ContinuesAt(s, Need(c));
    }
  }

  /** A window shows an encoding exactly when one starts at `at` and fits in `avail`. */
  lemma WindowExact(mem: string, at: nat, avail: nat)
    requires at <= |mem|
    ensures PrefixLen(Window(mem, at, avail)) > 0 <==> exists v :: StartsWith(mem[at..], v) && |Encode(v)| <= avail
    ensures forall v :: StartsWith(mem[at..], v) && |Encode(v)| <= avail ==>
              Encode(v) == mem[at..at + PrefixLen(Window(mem, at, avail))]
  {
    var w := Window(mem, at, avail);
    assert w <= mem[at..];
    PrefixLenExact(w);
    forall v | StartsWith(mem[at..], v) && |Encode(v)| <= avail
      ensures StartsWith(w, v) && Encode(v) == mem[at..at + PrefixLen(w)]
    {
      assert StartsWith(w, v);
    }
    if PrefixLen(w) > 0 {
      var v :| StartsWith(w, v);
      assert StartsWith(mem[at..], v);
    }
  }

  /** The memory reaches as far as the validator has to look: over the sequence its
      lead byte announces, or to the first byte that cannot continue it. */
  predicate SequenceReadable(mem: string, at: nat, avail: nat) {
    && at <= |mem|
    && (avail > 0 ==>
          && at < |mem|
          && var need := Need(mem[at] as int);
             avail <= need || at + need < |mem| ||
             exists k :: 1 <= k <= need && at + k < |mem| && !ContinuesAt(mem[at..], k))
  }

  /** A NUL, or `avail` bytes, are always enough. */
  lemma ReadableSequence(mem: string, at: nat, avail: nat)
    requires Readable(mem, at, avail)
    ensures SequenceReadable(mem, at, avail)
  {
    if avail > 0 && at + avail > |mem| {
      var s := mem[at..];
      var k :| 0 <= k < |s| && s[k] == NUL;
      assert mem[at] == s[0];
      var need := Need(mem[at] as int);
      if 1 <= k <= need { assert !ContinuesAt(s, k); }
    }
  }

  /** The memory may end right behind a byte that fails: nothing past it is read. */
  lemma ShortMemorySuffices()
    ensures var mem := [Byte(0xE2), 'A']; SequenceReadable(mem, 0, 4) && !Readable(mem, 0, 4)
  {
    var mem := [Byte(0xE2), 'A'];
    assert mem[0..] == mem;
    assert !ContinuesAt(mem, 1);
  }

  /** utf8_seq_len. The bounds checks of the reads are the over-read claim: the
      loop stops at the first byte that does not continue the sequence, a NUL or
      any other, and no byte past it is read. WindowExact says what the result
      means. */
  method SeqLen(mem: string, at: nat, avail: nat) returns (n: nat)
    requires SequenceReadable(mem, at, avail)
    ensures n == PrefixLen(Window(mem, at, avail))
  {
    hide PrefixLen;
    ghost var w := Window(mem, at, avail);
    if avail == 0 { return 0; }
    var c := mem[at] as int;
    if c < 0x80 {
      PrefixOfAscii(w);
      return 1;
    }
    RangesExact(w);
    var need: nat;
    var lo, hi := 0x80, 0xBF;
    if 0xC2 <= c <= 0xDF { need := 1; }
    else if c == 0xE0 { need := 2; lo := 0xA0; }
    else if 0xE1 <= c <= 0xEC { need := 2; }
    else if c == 0xED { need := 2; hi := 0x9F; }
    else if c == 0xEE || c == 0xEF { need := 2; }
    else if c == 0xF0 { need := 3; lo := 0x90; }
    else if 0xF1 <= c <= 0xF3 { need := 3; }
    else if c == 0xF4 { need := 3; hi := 0x8F; }
    else { return 0; }
    if avail < need + 1 {
      assert !ContinuesAt(w, need);
      return 0;
    }
    assert need == Need(c) && lo == Low(c) && hi == High(c);
    ghost var rest := mem[at..];
    for k := 1 to need + 1
      invariant forall j :: 1 <= j < k ==> at + j < |mem| && ContinuesAt(rest, j)
    {
      assert at + k < |mem|;
      var cc := mem[at + k] as int;
      var l := if k == 1 then lo else 0x80;
      var h := if k == 1 then hi else 0xBF;
      assert cc == rest[k] as int == w[k] as int;
      if cc < l || cc > h {
        assert !ContinuesAt(w, k);
        return 0;
      }
      assert ContinuesAt(rest, k);
    }
    forall j | 1 <= j <= need
      ensures ContinuesAt(w, j)
    {
      assert ContinuesAt(rest, j) && w[j] == rest[j];
    }
    n := need + 1;
  }

  // ---- Lemmas about valid text --------------------------------------------

  lemma {:induction false} ValidConcat(a: string, b: string)
    requires Valid(a) && Valid(b)
    ensures Valid(a + b)
  {
    hide PrefixLen;
    if a == [] {
      assert a + b == b;
    } else {
      var n := PrefixLen(a);
      PrefixLenLocal(a, a + b);
      assert (a + b)[n..] == a[n..] + b;
      ValidConcat(a[n..], b);
    }
  }

  /** Text that is cut before a byte which is no tail is valid exactly when both
      parts are. */
  lemma {:induction false} ValidSplit(a: string, b: string)
    requires b == [] || !IsTail(b[0])
    ensures Valid(a + b) <==> Valid(a) && Valid(b)
  {
    hide PrefixLen;
    if Valid(a) && Valid(b) {
      ValidConcat(a, b);
    } else if a == [] {
      assert a + b == b;
    } else if Valid(a + b) {
      var s := a + b;
      var n := PrefixLen(s);
      PrefixShape(s);
      assert b != [] ==> s[|a|] == b[0];
      assert n <= |a|;
      PrefixLenLocal(s, a);
      assert s[n..] == a[n..] + b;
      ValidSplit(a[n..], b);
    }
  }

  lemma {:induction false} AsciiValid(s: string)
    requires forall k :: 0 <= k < |s| ==> s[k] as int < 0x80
    ensures Valid(s)
  {
    if s != [] {
      PrefixOfAscii(s);
      AsciiValid(s[1..]);
    }
  }

  /** Complete ASCII text in front changes nothing. */
  lemma {:induction false} AsciiFront(a: string, b: string)
    requires forall k :: 0 <= k < |a| ==> a[k] as int < 0x80
    ensures Valid(a + b) <==> Valid(b)
  {
    hide PrefixLen;
    if a == [] {
      assert a + b == b;
    } else {
      PrefixOfAscii(a + b);
      assert (a + b)[1..] == a[1..] + b;
      AsciiFront(a[1..], b);
    }
  }

  lemma ValidFirst(s: string)
    requires PrefixLen(s) > 0
    ensures Valid(s[..PrefixLen(s)])
  {
    var p := s[..PrefixLen(s)];
    PrefixLenLocal(s, p);
    assert p[|p|..] == [];
  }

  /** A NUL ends a sequence as surely as the end of the text does. */
  lemma {:induction false} PrefixLenOfCStr(mem: string)
    requires CStr(mem) != []
    ensures PrefixLen(CStr(mem)) == PrefixLen(mem)
  {
    var c := CStr(mem);
    if PrefixLen(c) > 0 {
      PrefixLenLocal(c, mem);
    } else if PrefixLen(mem) > 0 {
      var n := PrefixLen(mem);
      PrefixShape(mem);
      assert forall k :: 1 <= k < n ==> mem[k] != NUL;
      PrefixLenLocal(mem, c);
    }
  }

  // ---- utf8_safe_copy ------------------------------------------------------

  /** How many bytes utf8_safe_copy keeps of a C string when `room` fit. */
  function SafeLen(src: string, room: nat): (n: nat)
    ensures n <= |src| && n <= room
  {
    var n := PrefixLen(src);
    if n == 0 || n > room then 0 else n + SafeLen(src[n..], room - n)
  }

  lemma {:induction false} SafeLenValid(src: string, room: nat)
    ensures Valid(src[..SafeLen(src, room)])
  {
    hide PrefixLen;
    var n := PrefixLen(src);
    if 0 < n <= room {
      var k := SafeLen(src[n..], room - n);
      SafeLenValid(src[n..], room - n);
      ValidFirst(src);
      ValidConcat(src[..n], src[n..][..k]);
      assert src[..n + k] == src[..n] + src[n..][..k];
    }
  }

  /** It is the longest valid prefix of the source that fits. */
  lemma {:induction false} SafeLenLongest(src: string, room: nat, q: nat)
    requires q <= |src| && Valid(src[..q])
    ensures q <= room ==> q <= SafeLen(src, room)
  {
    hide PrefixLen;
    if 0 < q <= room {
      var p := src[..q];
      var n := PrefixLen(p);
      PrefixLenLocal(p, src);
      assert p[n..] == src[n..][..q - n];
      SafeLenLongest(src[n..], room - n, q - n);
    }
  }

  /** Four bytes always suffice to see a whole encoding. */
  lemma WindowOfFour(s: string)
    ensures PrefixLen(s[..Min(|s|, 4)]) == PrefixLen(s)
  {
    var w := s[..Min(|s|, 4)];
    if PrefixLen(w) > 0 {
      PrefixLenLocal(w, s);
    } else if PrefixLen(s) > 0 {
      PrefixLenLocal(s, w);
    }
  }

  /** What the validator answers at offset `o` of a C string. */
  lemma {:induction false} SeqLenInCStr(mem: string, o: nat)
    requires NUL in mem && o < |CStr(mem)|
    ensures Readable(mem, o, 4)
    ensures PrefixLen(Window(mem, o, 4)) == PrefixLen(CStr(mem)[o..])
  {
    hide PrefixLen;
    var c := CStr(mem);
    assert mem[|c|] == NUL;
    assert mem[o..][|c| - o] == NUL;
    CStrDrop(mem, o);
    PrefixLenOfCStr(mem[o..]);
    WindowOfFour(mem[o..]);
    assert Window(mem, o, 4) == mem[o..][..Min(|mem[o..]|, 4)];
  }

  lemma {:induction false} SafeLenStep(s: string, o: nat, room: nat)
    requires o <= |s|
    ensures var n := PrefixLen(s[o..]);
            SafeLen(s[o..], room) == if n == 0 || n > room then 0 else n + SafeLen(s[o + n..], room - n)
  {
    hide PrefixLen;
    var n := PrefixLen(s[o..]);
    assert s[o..][n..] == s[o + n..];
  }

  lemma {:induction false} CStrExtend(mem: string, o: nat, n: nat)
    requires o + n <= |CStr(mem)|
    ensures CStr(mem)[..o] + mem[o..o + n] == CStr(mem)[..o + n]
  {
  }

  /** utf8_safe_copy; a null source is `None`. Nothing past the terminator changes. */
  method SafeCopy(dst: array<char>, dstsz: nat, src: Option<string>)
    requires dstsz <= dst.Length
    requires src.Some? ==> NUL in src.value
    modifies dst
    ensures dstsz == 0 ==> dst[..] == old(dst[..])
    ensures dstsz > 0 ==>
              var s := if src.Some? then CStr(src.value) else [];
              var n := SafeLen(s, dstsz - 1);
              dst[..] == Patch(old(dst[..]), 0, s[..n] + [NUL])
  {
    hide PrefixLen, SafeLen, Patch, CStr, Window;
    if dstsz == 0 { return; }
    var o := 0;
    PatchNothing(dst[..], 0);
    ghost var s := if src.Some? then CStr(src.value) else [];
    assert s[0..] == s;
    if src.Some? {
      var mem := src.value;
      while mem[o] != NUL
        invariant o <= |s| && o < dstsz
        invariant dst[..] == Patch(old(dst[..]), 0, s[..o])
        invariant SafeLen(s, dstsz - 1) == o + SafeLen(s[o..], dstsz - 1 - o)
        decreases |s| - o
      {
        SeqLenInCStr(mem, o);
        ReadableSequence(mem, o, 4);
        SafeLenStep(s, o, dstsz - 1 - o);
        var n := SeqLen(mem, o, 4);
        if n == 0 || o + n > dstsz - 1 { break; }
        PatchTwice(old(dst[..]), 0, s[..o], mem[o..o + n]);
        CStrExtend(mem, o, n);
        Blit(dst, o, mem[o..o + n]);
        o := o + n;
      }
    }
    if o == |s| { SafeLenStep(s, o, dstsz - 1 - o); }
    PatchTwice(old(dst[..]), 0, s[..o], [NUL]);
    Blit(dst, o, [NUL]);
  }
}
