// The number formats the source prints with printf (%u, %d, %llu, %0Nx, %0NX)
// and reads back with strtoull.
module Numbers {
  import opened Bytes

  predicate IsDigit(b: char) {
    '0' <= b <= '9'
  }

  predicate AllDigits(s: string) {
    forall k :: 0 <= k < |s| ==> IsDigit(s[k])
  }

  // ---- Decimal -------------------------------------------------------------

  /** %u and its wider forms. */
  function Dec(n: nat): (r: string)
    ensures |r| >= 1
  {
    if n < 10 then [Byte(0x30 + n)] else Dec(n / 10) + [Byte(0x30 + n % 10)]
  }

  /** %d and its wider forms. */
  function Signed(v: int): string {
    if v < 0 then "-" + Dec(-v) else Dec(v)
  }

  /** The number a string of decimal digits denotes. */
  function DecValue(s: string): nat
    requires AllDigits(s)
  {
    if s == [] then 0
    else
      assert IsDigit(s[|s| - 1]);
      10 * DecValue(s[..|s| - 1]) + (s[|s| - 1] as int - 0x30)
  }

  /** Printing yields digits without a leading zero that denote the number. */
  lemma {:induction false} DecRoundTrip(n: nat)
    ensures AllDigits(Dec(n))
    ensures DecValue(Dec(n)) == n
    ensures n > 0 ==> Dec(n)[0] != '0'
    ensures n == 0 ==> Dec(n) == "0"
  {
    if n >= 10 {
      DecRoundTrip(n / 10);
      var d := Dec(n);
      assert d[..|d| - 1] == Dec(n / 10);
    } else {
      assert Dec(n)[..0] == [];
    }
  }

  function Pow10(k: nat): nat {
    if k == 0 then 1 else 10 * Pow10(k - 1)
  }

  lemma {:induction false} DecLength(n: nat, k: nat)
    requires k > 0 && n < Pow10(k)
    ensures |Dec(n)| <= k
  {
    if n >= 10 {
      assert Pow10(1) == 10 * Pow10(0);
      DecLength(n / 10, k - 1);
    }
  }

  lemma {:induction false} DecLengths(n: nat)
    ensures n < 0x1_0000_0000 ==> |Dec(n)| <= 10
    ensures n <= 0x8000_0000_0000_0000 ==> |Dec(n)| <= 19
    ensures n < U64_LIMIT ==> |Dec(n)| <= 20
  {
    PowersOfTen();
    if n < 0x1_0000_0000 { DecLength(n, 10); }
    if n <= 0x8000_0000_0000_0000 { DecLength(n, 19); }
    if n < U64_LIMIT { DecLength(n, 20); }
  }

  lemma PowersOfTen()
    ensures Pow10(10) == 10_000_000_000
    ensures Pow10(19) == 10_000_000_000_000_000_000
    ensures Pow10(20) == 100_000_000_000_000_000_000
  {
    assert Pow10(5) == 100_000;
    assert Pow10(10) == 100_000 * Pow10(5);
    assert Pow10(15) == 100_000 * Pow10(10);
    assert Pow10(19) == 10_000 * Pow10(15);
    assert Pow10(20) == 10 * Pow10(19);
  }

  // ---- Hexadecimal ---------------------------------------------------------

  function HexDigit(d: nat, upper: bool): char
    requires d < 16
  {
    Byte(if d < 10 then 0x30 + d else if upper then 0x41 + (d - 10) else 0x61 + (d - 10))
  }

  /** The value of a hexadecimal digit, -1 for any other byte. */
  function DigitValue(b: char): int {
    if '0' <= b <= '9' then b as int - 0x30
    else if 'A' <= b <= 'F' then b as int - 0x41 + 10
    else if 'a' <= b <= 'f' then b as int - 0x61 + 10
    else -1
  }

  predicate AllHex(s: string) {
    forall k :: 0 <= k < |s| ==> DigitValue(s[k]) >= 0
  }

  /** %0<width>x, or %0<width>X when `upper`. */
  function Hex(n: nat, width: nat, upper: bool): string {
    if n == 0 then seq(width, _ => '0')
    else Hex(n / 16, if width == 0 then 0 else width - 1, upper) + [HexDigit(n % 16, upper)]
  }

  function HexValue(s: string): nat
    requires AllHex(s)
  {
    if s == [] then 0 else 16 * HexValue(s[..|s| - 1]) + DigitValue(s[|s| - 1])
  }

  function Pow16(k: nat): (r: nat)
    ensures r > 0
  {
    if k == 0 then 1 else 16 * Pow16(k - 1)
  }

  lemma {:induction false} ZerosAreZero(w: nat)
    ensures AllHex(seq(w, _ => '0')) && HexValue(seq(w, _ => '0')) == 0
  {
    var z := seq(w, _ => '0');
    if w > 0 {
      ZerosAreZero(w - 1);
      assert z[..w - 1] == seq(w - 1, _ => '0');
    }
  }

  lemma {:induction false} HexRoundTrip(n: nat, width: nat, upper: bool)
    ensures AllHex(Hex(n, width, upper)) && HexValue(Hex(n, width, upper)) == n
  {
    if n == 0 {
      ZerosAreZero(width);
    } else {
      var h := Hex(n, width, upper);
      HexRoundTrip(n / 16, if width == 0 then 0 else width - 1, upper);
      assert h[..|h| - 1] == Hex(n / 16, if width == 0 then 0 else width - 1, upper);
    }
  }

  /** A number of at most `k` digits is printed in max(width, k) digits at most,
      and never in fewer than `width`. */
  lemma {:induction false} HexLength(n: nat, width: nat, upper: bool, k: nat)
    requires n < Pow16(k)
    ensures width <= |Hex(n, width, upper)| <= if width < k then k else width
  {
    if n > 0 {
      HexLength(n / 16, if width == 0 then 0 else width - 1, upper, k - 1);
    }
  }

  /** A number of more than `k` digits is printed in more than `k` digits. */
  lemma {:induction false} HexLong(n: nat, width: nat, upper: bool, k: nat)
    requires n >= Pow16(k)
    ensures |Hex(n, width, upper)| > k
  {
    if k > 0 {
      HexLong(n / 16, if width == 0 then 0 else width - 1, upper, k - 1);
    }
  }

  lemma PowersOfSixteen()
    ensures Pow16(14) == 0x100_0000_0000_0000
    ensures Pow16(15) == 0x1000_0000_0000_0000
    ensures Pow16(16) == U64_LIMIT
  {
    assert Pow16(4) == 0x1_0000;
    assert Pow16(8) == 0x1_0000 * Pow16(4);
    assert Pow16(12) == 0x1_0000 * Pow16(8);
    assert Pow16(14) == 0x100 * Pow16(12);
    assert Pow16(15) == 0x10 * Pow16(14);
    assert Pow16(16) == 0x10 * Pow16(15);
  }

  /** The digits used, in the case asked for. */
  lemma {:induction false} HexAlphabet(n: nat, width: nat, upper: bool)
    ensures forall k :: 0 <= k < |Hex(n, width, upper)| ==>
              Hex(n, width, upper)[k] in if upper then "0123456789ABCDEF" else "0123456789abcdef"
  {
    if n > 0 || width > 0 {
      HexAlphabet(n / 16, if width == 0 then 0 else width - 1, upper);
      HexDigitIn(n % 16, upper);
    }
  }

  lemma HexDigitIn(d: nat, upper: bool)
    requires d < 16
    ensures HexDigit(d, upper) == (if upper then "0123456789ABCDEF" else "0123456789abcdef")[d]
  {
  }

  // ---- strtoull(s, nullptr, 16) and parse_ieee -----------------------------

  predicate IsSpace(b: char) {
    b == ' ' || 0x09 <= b as int <= 0x0D
  }

  function SkipSpace(s: string): string {
    if s != [] && IsSpace(s[0]) then SkipSpace(s[1..]) else s
  }

  predicate HasHexMark(s: string) {
    |s| >= 2 && s[0] == '0' && (s[1] == 'x' || s[1] == 'X')
  }

  /** The longest prefix of hexadecimal digits. */
  function HexRun(s: string): (r: string)
    ensures r <= s && AllHex(r)
    ensures |r| < |s| ==> DigitValue(s[|r|]) < 0
  {
    if s != [] && DigitValue(s[0]) >= 0 then
      var t := HexRun(s[1..]);
      [s[0]] + t
    else []
  }

  /** strtoull in base 16: white space, a sign, an optional 0x before a digit,
      digits, saturation at 2^64 - 1, negation modulo 2^64. */
  function Strtoull(s: string): U64 {
    var t := SkipSpace(s);
    var neg := t != [] && t[0] == '-';
    var u := if t != [] && (t[0] == '-' || t[0] == '+') then t[1..] else t;
    var d := HexRun(if HasHexMark(u) && |u| >= 3 && DigitValue(u[2]) >= 0 then u[2..] else u);
    var v := HexValue(d);
    if v >= U64_LIMIT then U64_LIMIT - 1
    else if neg && v > 0 then U64_LIMIT - v
    else v
  }

  /** parse_ieee: strtoull after an optional 0x; a null pointer is `None`. */
  function ParseIeee(s: Option<string>): U64 {
    match s
    case None => 0
    case Some(t) => Strtoull(if HasHexMark(t) then t[2..] else t)
  }

  lemma {:induction false} HexRunOfDigits(s: string)
    requires AllHex(s)
    ensures HexRun(s) == s && SkipSpace(s) == s && !HasHexMark(s)
    ensures s != [] ==> s[0] != '-' && s[0] != '+'
  {
    assert |HexRun(s)| == |s|;
    assert s != [] ==> DigitValue(s[0]) >= 0;
    assert |s| >= 2 ==> DigitValue(s[1]) >= 0;
  }

  /** Reading plain hexadecimal digits gives their value. */
  lemma {:induction false} StrtoullOfDigits(s: string)
    requires AllHex(s) && HexValue(s) < U64_LIMIT
    ensures Strtoull(s) == HexValue(s)
  {
    HexRunOfDigits(s);
  }

  lemma {:induction false} ParseIeeeOfDigits(s: string)
    requires AllHex(s) && HexValue(s) < U64_LIMIT
    ensures ParseIeee(Some(s)) == HexValue(s)
    ensures ParseIeee(Some("0x" + s)) == HexValue(s)
  {
    HexRunOfDigits(s);
    StrtoullOfDigits(s);
    var t := "0x" + s;
    assert t[0] == '0' && t[1] == 'x';
    assert t[2..] == s;
  }

  /** Anything else a client sends: reading stops at the first byte that is no digit,
      saturates at 2^64 - 1, and gives 0 where there is nothing to read. */
  lemma {:induction false} ParseIeeeElse(d: string, rest: string)
    requires AllHex(d) && |d| >= 2 && (rest == [] || DigitValue(rest[0]) < 0)
    ensures ParseIeee(Some(d + rest)) == Min(HexValue(d), 0xFFFF_FFFF_FFFF_FFFF)
    ensures ParseIeee(Some("0x" + d + rest)) == Min(HexValue(d), 0xFFFF_FFFF_FFFF_FFFF)
    ensures ParseIeee(Some("0X" + d + rest)) == Min(HexValue(d), 0xFFFF_FFFF_FFFF_FFFF)
    ensures ParseIeee(None) == 0 && ParseIeee(Some("")) == 0
  {
    hide Strtoull, HexValue, AllHex;
    var s := d + rest;
    StrtoullThen(d, rest);
    NoMark(d, rest);
    StrtoullOfNothing();
    assert ("0x" + d + rest)[2..] == s && ("0X" + d + rest)[2..] == s;
    assert HasHexMark("0x" + d + rest) && HasHexMark("0X" + d + rest) && !HasHexMark("");
  }

  lemma NoMark(d: string, rest: string)
    requires AllHex(d) && |d| >= 2
    ensures !HasHexMark(d + rest) && !IsSpace(d[0]) && d[0] != '-' && d[0] != '+'
  {
    assert DigitValue(d[0]) >= 0 && DigitValue(d[1]) >= 0;
    assert (d + rest)[0] == d[0] && (d + rest)[1] == d[1];
  }

  lemma {:induction false} StrtoullThen(d: string, rest: string)
    requires AllHex(d) && |d| >= 2 && (rest == [] || DigitValue(rest[0]) < 0)
    ensures Strtoull(d + rest) == Min(HexValue(d), 0xFFFF_FFFF_FFFF_FFFF)
  {
    hide HexValue, HexRun, AllHex, HasHexMark, IsSpace, DigitValue;
    NoMark(d, rest);
    HexRunThen(d, rest);
    assert (d + rest)[0] == d[0];
    assert SkipSpace(d + rest) == d + rest;
  }

  lemma StrtoullOfNothing()
    ensures Strtoull("") == 0
  {
    assert HexRun("") == "";
  }

  /** Blanks before a number are skipped, a plus is too, and a minus negates in 64
      bits, as strtoull does. */
  lemma {:induction false} ParseIeeeSigned(w: string, d: string)
    requires AllHex(d) && |d| >= 2 && forall k :: 0 <= k < |w| ==> w[k] == ' ' || 9 <= w[k] as int <= 13
    ensures var v := HexValue(d);
            && ParseIeee(Some(w + d)) == Min(v, 0xFFFF_FFFF_FFFF_FFFF)
            && ParseIeee(Some(w + "+" + d)) == Min(v, 0xFFFF_FFFF_FFFF_FFFF)
            && (0 < v <= 0xFFFF_FFFF_FFFF_FFFF ==> ParseIeee(Some(w + "-" + d)) == 0x1_0000_0000_0000_0000 - v)
  {
    hide HexValue, HexRun, AllHex, DigitValue, IsSpace;
    NoMark(d, "");
    HexRunThen(d, "");
    assert d + "" == d;
    NoSpaceSign();
    BlanksSkipped(w, d);
    BlanksSkipped(w, "+" + d);
    BlanksSkipped(w, "-" + d);
    assert w + "+" + d == w + ("+" + d) && w + "-" + d == w + ("-" + d);
    assert ("+" + d)[1..] == d && ("-" + d)[1..] == d;
    NoMarkBehindBlanks(w, d);
    NoMarkBehindBlanks(w, "+" + d);
    NoMarkBehindBlanks(w, "-" + d);
  }

  lemma NoSpaceSign()
    ensures !IsSpace('+') && !IsSpace('-')
  {
  }

  lemma {:induction false} BlanksSkipped(w: string, t: string)
    requires forall k :: 0 <= k < |w| ==> w[k] == ' ' || 9 <= w[k] as int <= 13
    requires t != [] && !IsSpace(t[0])
    ensures SkipSpace(w + t) == t
  {
    if w == [] {
      assert w + t == t;
    } else {
      assert (w + t)[1..] == w[1..] + t;
      BlanksSkipped(w[1..], t);
    }
  }

  lemma NoMarkBehindBlanks(w: string, t: string)
    requires forall k :: 0 <= k < |w| ==> w[k] == ' ' || 9 <= w[k] as int <= 13
    requires !HasHexMark(t)
    ensures !HasHexMark(w + t)
  {
    if w == [] { assert w + t == t; } else { assert (w + t)[0] == w[0] != '0'; }
  }

  lemma {:induction false} HexRunThen(d: string, rest: string)
    requires AllHex(d) && (rest == [] || DigitValue(rest[0]) < 0)
    ensures HexRun(d + rest) == d
  {
    if d == [] {
      assert d + rest == rest;
    } else {
      assert (d + rest)[1..] == d[1..] + rest;
      HexRunThen(d[1..], rest);
    }
  }

  /** The cursor "0x%016X" and the bare key "%016x" read back as the same number. */
  lemma {:induction false} CursorRoundTrip(v: U64, upper: bool)
    ensures |Hex(v, 16, upper)| == 16
    ensures ParseIeee(Some("0x" + Hex(v, 16, upper))) == v
    ensures ParseIeee(Some(Hex(v, 16, upper))) == v
  {
    PowersOfSixteen();
    HexLength(v, 16, upper, 16);
    HexRoundTrip(v, 16, upper);
    ParseIeeeOfDigits(Hex(v, 16, upper));
  }
}
