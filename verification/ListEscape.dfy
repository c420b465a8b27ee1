// json_escape of main/devlist_page.h: the escaper that cuts what does not fit.
module ListEscape {
  import opened Bytes
  import opened Numbers
  import opened JsonText
  import opened StringEscape
  import Utf8

  /** How many tail bytes `s` starts with. */
  function Tails(s: string): (n: nat)
    ensures n <= |s|
    ensures forall k :: 0 <= k < n ==> Utf8.IsTail(s[k])
    ensures n < |s| ==> !Utf8.IsTail(s[n])
  {
    if s != [] && Utf8.IsTail(s[0]) then 1 + Tails(s[1..]) else 0
  }

  /** One character of json_escape: an escape, or a byte with the tails behind it. */
  function ListChunk(s: string): (p: Chunk)
    requires s != []
    ensures 0 < p.used <= |s| && p.text != []
  {
    var c := s[0];
    if c == '\"' || c == '\\' then Chunk(['\\', c], 1)
    else if c < ' ' then
      Chunk(['\\', 'u', '0', '0', HexDigit(c as int / 16, false), HexDigit(c as int % 16, false)], 1)
    else Chunk(s[..1 + Tails(s[1..])], 1 + Tails(s[1..]))
  }

  /** What json_escape writes for the source `s` when `n` bytes of the `cap` are
      taken: the text, and how many source bytes it covers. */
  function EscapeInto(s: string, n: nat, cap: nat): (r: Chunk)
    ensures r.used <= |s|
    ensures r.text == [] || n + |r.text| < cap
    decreases |s|
  {
    if s == [] || n + |ListChunk(s).text| >= cap then Chunk([], 0)
    else
      var p := ListChunk(s);
      var r := EscapeInto(s[p.used..], n + |p.text|, cap);
      Chunk(p.text + r.text, p.used + r.used)
  }

  /** `k` lies between two characters of `s`. */
  predicate Boundary(s: string, k: nat)
    decreases |s|
  {
    k == 0 || (s != [] && ListChunk(s).used <= k && Boundary(s[ListChunk(s).used..], k - ListChunk(s).used))
  }

  /** The forms used: a backslash before quote and backslash, "\\u00xx" in lower case
      for controls, everything else as it is. */
  lemma ListChunkForms(s: string)
    requires s != []
    ensures var c, t := s[0], ListChunk(s).text;
            && (c == '\"' ==> t == "\\\"") && (c == '\\' ==> t == "\\\\")
            && (c < ' ' ==> t == "\\u00" + ["0123456789abcdef"[c as int / 16]] + ["0123456789abcdef"[c as int % 16]])
            && (c >= ' ' && c != '\"' && c != '\\' ==> t == s[..|t|])
  {
    hide Tails;
    if s[0] < ' ' {
      HexDigitIn(s[0] as int / 16, false);
      HexDigitIn(s[0] as int % 16, false);
    }
  }

  lemma ListChunkDecodes(s: string)
    requires s != []
    ensures Unescape(ListChunk(s).text) == Some(s[..ListChunk(s).used])
    ensures NUL !in s ==> NUL !in ListChunk(s).text
  {
    hide NextPiece, Hex, HexDigit;
    var c, t := s[0], ListChunk(s).text;
    if c == '\"' || c == '\\' {
      ShortDecodes(c);
      UnescapeOne(t);
      assert s[..1] == [c];
    } else if c < ' ' {
      ControlDigits(c);
      assert t == ControlEscape(c);
      ControlDecodes(c);
      UnescapeOne(t);
      assert s[..1] == [c];
      ControlNoNul(c);
    } else {
      UnescapePlain(t);
    }
  }

  lemma ControlNoNul(c: char)
    requires c < ' '
    ensures HexDigit(c as int / 16, false) != NUL && HexDigit(c as int % 16, false) != NUL
  {
  }

  /** json_escape loses nothing but the tail it cuts: the text decodes to the
      part of the source that was taken. */
  lemma {:induction false} EscapeIntoDecodes(s: string, n: nat, cap: nat)
    ensures Unescape(EscapeInto(s, n, cap).text) == Some(s[..EscapeInto(s, n, cap).used])
    ensures NUL !in s ==> NUL !in EscapeInto(s, n, cap).text
    decreases |s|
  {
    hide ListChunk, Unescape;
    var r := EscapeInto(s, n, cap);
    if r.used == 0 {
      assert r.text == [] && s[..0] == [];
      assert Unescape([]) == Some([]) by { UnescapeNothing(); }
    } else {
      var p := ListChunk(s);
      var rest := s[p.used..];
      var q := EscapeInto(rest, n + |p.text|, cap);
      ListChunkDecodes(s);
      EscapeIntoDecodes(rest, n + |p.text|, cap);
      UnescapeConcat(p.text, q.text);
      assert s[..r.used] == s[..p.used] + rest[..q.used];
    }
  }

  lemma UnescapeNothing()
    ensures Unescape([]) == Some([])
  {
  }

  /** The cut lies between two characters, and either the whole source was taken
      or the next character would not fit with the NUL. */
  lemma {:induction false} EscapeIntoMaximal(s: string, n: nat, cap: nat)
    ensures var r := EscapeInto(s, n, cap);
            && Boundary(s, r.used)
            && (r.used == |s| || n + |r.text| + |ListChunk(s[r.used..]).text| >= cap)
    decreases |s|
  {
    hide ListChunk;
    var r := EscapeInto(s, n, cap);
    if r.used == 0 {
      assert s[0..] == s;
    } else {
      var p := ListChunk(s);
      var rest := s[p.used..];
      EscapeIntoMaximal(rest, n + |p.text|, cap);
      assert s[r.used..] == rest[r.used - p.used..];
    }
  }

  lemma {:induction false} ValidHead(s: string)
    requires s != [] && Utf8.Valid(s)
    ensures !Utf8.IsTail(s[0])
  {
    hide Utf8.PrefixLen;
    Utf8.PrefixShape(s);
  }

  /** In valid text a character of json_escape is one encoded scalar value. */
  lemma {:induction false} ListChunkOfValid(s: string)
    requires s != [] && Utf8.Valid(s)
    ensures Utf8.Valid(ListChunk(s).text)
    ensures ListChunk(s).used == Utf8.PrefixLen(s)
  {
    hide Utf8.PrefixLen, HexDigit, Tails, Utf8.Valid;
    RestIsValid(s);
    var n := Utf8.PrefixLen(s);
    var t := Tails(s[1..]);
    Utf8.PrefixShape(s);
    if s[n..] != [] {
      ValidHead(s[n..]);
      assert s[n] == s[n..][0];
    }
    assert t == n - 1 by {
      assert forall k :: 0 <= k < n - 1 ==> s[1..][k] == s[k + 1];
      assert n < |s| ==> s[1..][n - 1] == s[n];
    }
    Utf8.ValidFirst(s);
    if s[0] as int < 0x80 {
      if s[0] < ' ' { ControlAscii(s[0]); }
      Utf8.AsciiValid(ListChunk(s).text);
    }
  }

  lemma ControlAscii(c: char)
    requires c < ' '
    ensures HexDigit(c as int / 16, false) as int < 0x80 && HexDigit(c as int % 16, false) as int < 0x80
  {
  }

  lemma NothingIsValid()
    ensures Utf8.Valid([])
  {
  }

  lemma {:induction false} RestIsValid(s: string)
    requires s != [] && Utf8.Valid(s)
    ensures Utf8.PrefixLen(s) > 0 && Utf8.Valid(s[Utf8.PrefixLen(s)..])
  {
  }

  /** Nothing is taken, or one character and what follows it. */
  lemma EscapeIntoStep(s: string, n: nat, cap: nat)
    ensures var r := EscapeInto(s, n, cap);
            if r.used == 0 then r.text == []
            else
              && s != []
              && var p := ListChunk(s);
                 var q := EscapeInto(s[p.used..], n + |p.text|, cap);
                 r.text == p.text + q.text && r.used == p.used + q.used
  {
    hide ListChunk;
  }

  /** Valid UTF-8 stays valid, and the cut never falls inside a character. */
  lemma {:induction false} EscapeIntoValid(s: string, n: nat, cap: nat)
    requires Utf8.Valid(s)
    ensures Utf8.Valid(EscapeInto(s, n, cap).text)
    ensures Utf8.Valid(s[..EscapeInto(s, n, cap).used])
    ensures Utf8.Valid(s[EscapeInto(s, n, cap).used..])
    decreases |s|
  {
    hide EscapeInto, ListChunk, Utf8.PrefixLen, Utf8.Valid;
    var r := EscapeInto(s, n, cap);
    EscapeIntoStep(s, n, cap);
    if r.used == 0 {
      assert s[0..] == s && s[..0] == [];
      NothingIsValid();
    } else {
      var p := ListChunk(s);
      var rest := s[p.used..];
      var q := EscapeInto(rest, n + |p.text|, cap);
      ListChunkOfValid(s);
      RestIsValid(s);
      EscapeIntoValid(rest, n + |p.text|, cap);
      Utf8.ValidConcat(p.text, q.text);
      Utf8.ValidFirst(s);
      Utf8.ValidConcat(s[..p.used], rest[..q.used]);
      assert s[..r.used] == s[..p.used] + rest[..q.used];
      assert s[r.used..] == rest[q.used..];
    }
  }

  /** A chunk is as valid as the source bytes it stands for, and like them starts
      with no tail unless they do. */
  lemma ChunkAsValid(s: string)
    requires s != []
    ensures Utf8.Valid(ListChunk(s).text) <==> Utf8.Valid(s[..ListChunk(s).used])
    ensures Utf8.IsTail(ListChunk(s).text[0]) <==> Utf8.IsTail(s[0])
    ensures ListChunk(s).used < |s| && s[0] >= ' ' && s[0] != '\"' && s[0] != '\\' ==>
              !Utf8.IsTail(s[ListChunk(s).used])
  {
    hide Utf8.PrefixLen, Utf8.Valid, HexDigit;
    var c, p := s[0], ListChunk(s);
    if c == '\"' || c == '\\' || c < ' ' {
      if c < ' ' { ControlAscii(c); }
      Utf8.AsciiValid(p.text);
      Utf8.AsciiValid(s[..1]);
    } else {
      var n := Tails(s[1..]);
      if 1 + n < |s| { assert s[1..][n] == s[1 + n]; }
    }
  }

  /** What json_escape writes is valid UTF-8 exactly when the part of the source
      that it took is. Orphaned tails behind an escape are kept apart by it. */
  lemma {:induction false} TakenPartDecides(s: string, n: nat, cap: nat)
    ensures Utf8.Valid(EscapeInto(s, n, cap).text) <==> Utf8.Valid(s[..EscapeInto(s, n, cap).used])
    ensures EscapeInto(s, n, cap).used > 0 ==>
              s != [] && (Utf8.IsTail(EscapeInto(s, n, cap).text[0]) <==> Utf8.IsTail(s[0]))
    decreases |s|
  {
    hide ListChunk, Utf8.PrefixLen, Utf8.Valid;
    var r := EscapeInto(s, n, cap);
    if r.used == 0 {
      assert r.text == [] && s[..0] == [];
    } else {
      var p := ListChunk(s);
      var rest := s[p.used..];
      var q := EscapeInto(rest, n + |p.text|, cap);
      ChunkAsValid(s);
      TakenPartDecides(rest, n + |p.text|, cap);
      assert s[..r.used] == s[..p.used] + rest[..q.used];
      if q.used > 0 && Utf8.IsTail(rest[0]) {
        OrphanAfterEscape(s, p, q.text, rest[..q.used]);
      } else {
        Utf8.ValidSplit(p.text, q.text);
        Utf8.ValidSplit(s[..p.used], rest[..q.used]);
      }
    }
  }

  /** A tail byte behind complete text makes both sides invalid. */
  lemma {:induction false} OrphanAfterEscape(s: string, p: Chunk, text: string, taken: string)
    requires s != [] && p == ListChunk(s) && p.used < |s| && Utf8.IsTail(s[p.used])
    requires text != [] && taken != [] && Utf8.IsTail(text[0]) && Utf8.IsTail(taken[0])
    ensures !Utf8.Valid(p.text + text) && !Utf8.Valid(s[..p.used] + taken)
  {
    hide Utf8.PrefixLen, Utf8.Valid, HexDigit;
    ChunkAsValid(s);
    if s[0] < ' ' { ControlAscii(s[0]); }
    Utf8.AsciiValid(p.text);
    Utf8.AsciiValid(s[..p.used]);
    TailNotAppended(p.text, text);
    TailNotAppended(s[..p.used], taken);
  }

  lemma {:induction false} TailNotAppended(a: string, b: string)
    requires Utf8.Valid(a) && b != [] && Utf8.IsTail(b[0])
    ensures !Utf8.Valid(a + b)
  {
    hide Utf8.PrefixLen;
    if a == [] {
      assert a + b == b;
      if Utf8.Valid(b) { Utf8.PrefixShape(b); }
    } else {
      var n := Utf8.PrefixLen(a);
      Utf8.PrefixLenLocal(a, a + b);
      assert (a + b)[n..] == a[n..] + b;
      TailNotAppended(a[n..], b);
    }
  }

  // ---- When the output is valid, from the source and the room alone --------

  /** The bytes that escaping the whole of `s` takes. */
  function EscLen(s: string): nat {
    if s == [] then 0
    else (if s[0] == '\"' || s[0] == '\\' then 2 else if s[0] < ' ' then 6 else 1) + EscLen(s[1..])
  }

  lemma {:induction false} EscLenConcat(a: string, b: string)
    ensures EscLen(a + b) == EscLen(a) + EscLen(b)
  {
    if a == [] {
      assert a + b == b;
    } else {
      assert (a + b)[1..] == a[1..] + b;
      EscLenConcat(a[1..], b);
    }
  }

  lemma {:induction false} EscLenOfTails(s: string, n: nat)
    requires n <= Tails(s)
    ensures EscLen(s[..n]) == n
  {
    if n > 0 {
      assert s[..n][1..] == s[1..][..n - 1];
      EscLenOfTails(s[1..], n - 1);
    }
  }

  lemma EscLenOfChunk(s: string)
    requires s != []
    ensures EscLen(s[..ListChunk(s).used]) == |ListChunk(s).text|
  {
    hide HexDigit, Tails;
    var n := ListChunk(s).used;
    var c := s[..n];
    assert c[1..] == s[1..][..n - 1];
    EscLenOfTails(s[1..], n - 1);
  }

  /** A character boundary lies in the part taken exactly when the source up to it
      fits with the NUL. */
  lemma {:induction false} BoundaryTaken(s: string, n: nat, cap: nat, k: nat)
    requires Boundary(s, k)
    ensures k <= |s|
    ensures n + EscLen(s[..k]) < cap <==> n < cap && k <= EscapeInto(s, n, cap).used
    decreases |s|
  {
    hide ListChunk, EscLen;
    if k == 0 {
      assert s[..0] == [];
      assert EscLen([]) == 0 by { EscLenConcat([], []); assert [] + [] == ""; }
    } else {
      var p := ListChunk(s);
      var rest := s[p.used..];
      BoundaryTaken(rest, n + |p.text|, cap, k - p.used);
      assert s[..k] == s[..p.used] + rest[..k - p.used];
      EscLenConcat(s[..p.used], rest[..k - p.used]);
      EscLenOfChunk(s);
    }
  }

  /** In text valid up to `m` every earlier boundary is a valid cut: a boundary
      before a tail byte stands behind an escaped character. */
  lemma {:induction false} ValidAtBoundary(s: string, k: nat, m: nat)
    requires Boundary(s, k) && k <= m <= |s| && Utf8.Valid(s[..m])
    ensures Utf8.Valid(s[..k])
    decreases |s|
  {
    hide Utf8.PrefixLen, Utf8.Valid, ListChunk;
    if k == 0 {
      assert s[..0] == [];
      NothingIsValid();
    } else {
      var used := ListChunk(s).used;
      var a, b := s[..used], s[used..m];
      assert s[..m] == a + b;
      ChunkAsValid(s);
      if b != [] && Utf8.IsTail(b[0]) {
        ChunkIsEscape(s);
        Utf8.AsciiFront(a, b);
        ValidHead(b);
        assert false;
      }
      Utf8.ValidSplit(a, b);
      assert s[used..][..m - used] == b;
      ValidAtBoundary(s[used..], k - used, m - used);
      Utf8.ValidConcat(a, s[used..][..k - used]);
      assert s[..k] == a + s[used..][..k - used];
    }
  }

  lemma ChunkIsEscape(s: string)
    requires s != [] && ListChunk(s).used < |s| && Utf8.IsTail(s[ListChunk(s).used])
    ensures ListChunk(s).used == 1 && s[0] as int < 0x80
  {
    ChunkAsValid(s);
  }

  /** The output is valid UTF-8 if and only if the source is valid up to every
      character boundary up to which it fits. */
  lemma {:induction false} EscapeIntoValidExactly(s: string, n: nat, cap: nat)
    ensures Utf8.Valid(EscapeInto(s, n, cap).text) <==>
            forall k: nat :: k <= |s| && Boundary(s, k) && n + EscLen(s[..k]) < cap ==> Utf8.Valid(s[..k])
    ensures n + EscLen(s) < cap ==> (Utf8.Valid(EscapeInto(s, n, cap).text) <==> Utf8.Valid(s))
  {
    hide ListChunk, Utf8.PrefixLen, Utf8.Valid, EscapeInto, EscLen, Boundary;
    var r := EscapeInto(s, n, cap);
    TakenPartDecides(s, n, cap);
    EscapeIntoMaximal(s, n, cap);
    BoundaryTaken(s, n, cap, r.used);
    if Utf8.Valid(r.text) {
      forall k: nat | k <= |s| && Boundary(s, k) && n + EscLen(s[..k]) < cap
        ensures Utf8.Valid(s[..k])
      {
        BoundaryTaken(s, n, cap, k);
        ValidAtBoundary(s, k, r.used);
      }
    } else if n >= cap {
      NothingIsValid();
    } else {
      assert Boundary(s, r.used) && n + EscLen(s[..r.used]) < cap;
    }
    if n + EscLen(s) < cap {
      WholeIsBoundary(s);
      assert s[..|s|] == s;
      BoundaryTaken(s, n, cap, |s|);
    }
  }

  lemma {:induction false} WholeIsBoundary(s: string)
    ensures Boundary(s, |s|)
    decreases |s|
  {
    hide ListChunk;
    if s != [] { WholeIsBoundary(s[ListChunk(s).used..]); }
  }

  /** The comment on json_escape promises valid text for any source. A lone tail
      byte passes through. */
  lemma LoneTailPasses()
    ensures var s := [Byte(0x80)];
            EscapeInto(s, 0, 64) == Chunk(s, 1) && !Utf8.Valid(EscapeInto(s, 0, 64).text)
  {
    var s := [Byte(0x80)];
    assert s[1..] == [] && s[..1] == s;
    assert ListChunk(s) == Chunk(s, 1);
    assert EscapeInto(s[1..], 1, 64) == Chunk([], 0);
    assert s + [] == s;
    if Utf8.Valid(s) { ValidHead(s); }
  }

  /** The C string behind a pointer; a null pointer reads as the empty string. */
  type CString = s: string | NUL in s witness [NUL]

  function Text(p: Option<CString>): string {
    if p.Some? then CStr(p.value) else []
  }

  /** What has been written for the first `i` bytes of `s`. */
  ghost predicate EscapedSoFar(s: string, cap: nat, i: nat, done: string) {
    && i <= |s|
    && (done == [] || |done| < cap)
    && var r := EscapeInto(s[i..], |done|, cap);
       EscapeInto(s, 0, cap) == Chunk(done + r.text, i + r.used)
  }

  lemma EscapeStart(s: string, cap: nat)
    ensures EscapedSoFar(s, cap, 0, [])
  {
    assert s[0..] == s;
    assert [] + EscapeInto(s, 0, cap).text == EscapeInto(s, 0, cap).text;
  }

  lemma {:induction false} EscapeStep(s: string, cap: nat, i: nat, done: string)
    requires i < |s| && EscapedSoFar(s, cap, i, done)
    ensures var p := ListChunk(s[i..]);
            if |done| + |p.text| >= cap then EscapeInto(s, 0, cap) == Chunk(done, i)
            else EscapedSoFar(s, cap, i + p.used, done + p.text)
  {
    hide ListChunk;
    var p := ListChunk(s[i..]);
    assert s[i..][p.used..] == s[i + p.used..];
    if |done| + |p.text| >= cap {
      assert done + [] == done;
    } else {
      var q := EscapeInto(s[i + p.used..], |done| + |p.text|, cap);
      assert done + (p.text + q.text) == (done + p.text) + q.text;
    }
  }

  lemma {:induction false} EscapeEnd(s: string, cap: nat, i: nat, done: string)
    requires i == |s| && EscapedSoFar(s, cap, i, done)
    ensures EscapeInto(s, 0, cap) == Chunk(done, i)
  {
    assert s[i..] == [];
    assert done + [] == done;
  }

  /** The loop that steps over the tails of a character. */
  method SequenceLen(mem: string, i: nat) returns (len: nat)
    requires NUL in mem && i < |CStr(mem)|
    ensures len == 1 + Tails(CStr(mem)[i + 1..])
    ensures i + len <= |CStr(mem)| && mem[i..i + len] == CStr(mem)[i..][..len]
  {
    hide CStr, Tails;
    ghost var s := CStr(mem);
    ghost var t := s[i + 1..];
    len := 1;
    while Utf8.IsTail(mem[i + len])
      invariant 1 <= len <= |t| + 1
      invariant forall k :: 0 <= k < len - 1 ==> Utf8.IsTail(t[k])
      decreases |t| + 1 - len
    {
      assert mem[i + len] == t[len - 1];
      len := len + 1;
    }
    assert len - 1 < |t| ==> mem[i + len] == t[len - 1];
  }

  /** json_escape. */
  method JsonEscape(src: Option<CString>, dst: array<char>, cap: nat) returns (n: nat)
    requires cap <= dst.Length
    modifies dst
    ensures n == |EscapeInto(Text(src), 0, cap).text|
    ensures cap == 0 ==> dst[..] == old(dst[..])
    ensures cap > 0 ==> n < cap && dst[..] == Patch(old(dst[..]), 0, EscapeInto(Text(src), 0, cap).text + [NUL])
  {
    hide EscapeInto, EscapedSoFar, ListChunk, Tails, Patch, CStr;
    var mem := if src.Some? then src.value else [NUL];
    ghost var s, done := Text(src), "";
    assert s == CStr(mem) by { NullIsEmpty(); }
    n := 0;
    var i := 0;
    EscapeStart(s, cap);
    PatchNothing(dst[..], 0);
    while mem[i] != NUL
      invariant i <= |s|
      invariant EscapedSoFar(s, cap, i, done)
      invariant n == |done| && (done == [] || n < cap)
      invariant dst[..] == Patch(old(dst[..]), 0, done)
      decreases |s| - i
    {
      EscapeStep(s, cap, i, done);
      var piece, step := EscapeStepText(mem, i);
      if n + |piece| >= cap { break; }
      PatchTwice(old(dst[..]), 0, done, piece);
      Blit(dst, n, piece);
      n := n + |piece|;
      i := i + step;
      done := done + piece;
    }
    if i == |s| { EscapeEnd(s, cap, i, done); }
    assert EscapeInto(s, 0, cap) == Chunk(done, i);
    if cap > 0 {
      PatchTwice(old(dst[..]), 0, done, [NUL]);
      Blit(dst, n, [NUL]);
    }
  }

  lemma NullIsEmpty()
    ensures CStr([NUL]) == []
  {
  }

  /** The branches of the loop of json_escape: the piece and how far it reaches. */
  method EscapeStepText(mem: string, i: nat) returns (piece: string, step: nat)
    requires NUL in mem && i < |CStr(mem)|
    ensures Chunk(piece, step) == ListChunk(CStr(mem)[i..])
  {
    hide Tails, HexDigit, CStr;
    ghost var s := CStr(mem)[i..];
    var c := mem[i];
    assert c == s[0] && s[1..] == CStr(mem)[i + 1..];
    if c == '\"' || c == '\\' {
      piece, step := ['\\', c], 1;
    } else if c < ' ' {
      piece := ['\\', 'u', '0', '0', HexDigit(c as int / 16, false), HexDigit(c as int % 16, false)];
      step := 1;
    } else {
      step := SequenceLen(mem, i);
      piece := mem[i..i + step];
    }
  }
}
