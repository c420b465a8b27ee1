// Bytes, machine-integer ranges and NUL-terminated strings, shared by every
// other module of the model. A byte of C memory is a `char` below U+0100, so
// that text literals can be written as such; the lemmas hold for any `char`.
module Bytes {
  type U16 = v: int | 0 <= v < 0x1_0000
  type U32 = v: int | 0 <= v < 0x1_0000_0000
  type U64 = v: int | 0 <= v < 0x1_0000_0000_0000_0000
  type I32 = v: int | -0x8000_0000 <= v < 0x8000_0000
  type I64 = v: int | -0x8000_0000_0000_0000 <= v < 0x8000_0000_0000_0000

  const U64_LIMIT: int := 0x1_0000_0000_0000_0000
  const NUL: char := '\0'

  datatype Option<+T> = None | Some(value: T)

  /** The byte of value `n`. */
  function Byte(n: int): char
    requires 0 <= n < 0x100
  {
    n as char
  }

  function Min(a: int, b: int): int {
    if a < b then a else b
  }

  /** The C string held at the start of `mem`: the bytes before the first NUL. */
  function CStr(mem: string): (r: string)
    ensures r <= mem
    ensures NUL !in r
    ensures |r| < |mem| ==> mem[|r|] == NUL
  {
    if mem == [] || mem[0] == NUL then [] else [mem[0]] + CStr(mem[1..])
  }

  /** What a reader bounded by `max` bytes sees of `mem` from index `at` on. */
  function Window(mem: string, at: nat, max: nat): string
    requires at <= |mem|
  {
    mem[at..Min(|mem|, at + max)]
  }

  /** A reader that stops at `max` bytes or at a NUL stays inside `mem`. */
  predicate Readable(mem: string, at: nat, max: nat) {
    at <= |mem| && (at + max <= |mem| || NUL in mem[at..])
  }

  lemma {:induction false} CStrUnique(mem: string, n: nat)
    requires n <= |mem|
    requires NUL !in mem[..n]
    requires n < |mem| ==> mem[n] == NUL
    ensures CStr(mem) == mem[..n]
  {
    if n > 0 {
      assert mem[0] == mem[..n][0];
      assert mem[1..][..n - 1] == mem[..n][1..];
      CStrUnique(mem[1..], n - 1);
      assert mem[..n] == [mem[0]] + mem[1..][..n - 1];
    }
  }

  /** A literal of the source, with the terminator the compiler adds. */
  function Literal(s: string): string {
    s + [NUL]
  }

  lemma CStrOfLiteral(s: string)
    requires NUL !in s
    ensures NUL in Literal(s) && CStr(Literal(s)) == s
  {
    assert Literal(s)[|s|] == NUL;
    assert Literal(s)[..|s|] == s;
    CStrUnique(Literal(s), |s|);
  }

  /** Skipping `n` bytes of a C string leaves the C string behind them. */
  lemma {:induction false} CStrDrop(mem: string, n: nat)
    requires n <= |CStr(mem)|
    ensures CStr(mem[n..]) == CStr(mem)[n..]
  {
    var r := CStr(mem);
    assert mem[n..][..|r| - n] == r[n..];
    CStrUnique(mem[n..], |r| - n);
  }

  /** `mem` with `text` written over it from index `at` on. */
  function Patch(mem: string, at: nat, text: string): string
    requires at + |text| <= |mem|
  {
    mem[..at] + text + mem[at + |text|..]
  }

  lemma PatchNothing(mem: string, at: nat)
    requires at <= |mem|
    ensures Patch(mem, at, []) == mem
  {
  }

  /** Two adjacent writes are one. */
  lemma PatchTwice(mem: string, at: nat, a: string, b: string)
    requires at + |a| + |b| <= |mem|
    ensures |Patch(mem, at, a)| == |mem|
    ensures Patch(Patch(mem, at, a), at + |a|, b) == Patch(mem, at, a + b)
  {
    var m := Patch(mem, at, a);
    assert m[..at + |a|] == mem[..at] + a;
    assert m[at + |a| + |b|..] == mem[at + |a| + |b|..];
  }

  /** memcpy: copies `text` into `dst` at index `at`. */
  method Blit(dst: array<char>, at: nat, text: string)
    requires at + |text| <= dst.Length
    modifies dst
    ensures dst[..] == Patch(old(dst[..]), at, text)
    ensures dst[..at + |text|] == old(dst[..at]) + text
    ensures dst[at + |text|..] == old(dst[at + |text|..])
  {
    for k := 0 to |text|
      invariant dst[..at + k] == old(dst[..at]) + text[..k]
      invariant dst[at + k..] == old(dst[at + k..])
    {
      dst[at + k] := text[k];
    }
    assert dst[..] == dst[..at + |text|] + dst[at + |text|..];
  }

  /** snprintf into the `rem` bytes of `dst` from `at` on: as much of `text` as
      leaves room for the NUL is written, and the full length is returned. */
  method Snprintf(dst: array<char>, at: nat, rem: nat, text: string) returns (n: nat)
    requires at + rem <= dst.Length
    modifies dst
    ensures n == |text|
    ensures rem == 0 ==> dst[..] == old(dst[..])
    ensures rem > 0 ==> dst[..] == Patch(old(dst[..]), at, text[..Min(|text|, rem - 1)] + [NUL])
    ensures n < rem ==> dst[..at + n] == old(dst[..at]) + text
    ensures dst[at + rem..] == old(dst[at + rem..])
  {
    if rem > 0 {
      var k := Min(|text|, rem - 1);
      Blit(dst, at, text[..k] + [NUL]);
      assert dst[at + rem..] == dst[at + k + 1..][rem - k - 1..];
      if |text| < rem {
        assert text[..|text|] == text;
        assert dst[..at + |text|] == dst[..at + |text| + 1][..at + |text|];
      }
    }
    n := |text|;
  }
}
