// The flash keys of main/device_options.cpp: the IEEE in hexadecimal, kept to the
// 15 characters a key may have, and read back when options are restored.
module OptionKeys {
  import opened Bytes
  import opened Numbers

  const KEY_CAP: nat := 16

  /** key_for. */
  function KeyFor(ieee: U64): string {
    var digits := Hex(ieee, 14, false);
    digits[..Min(|digits|, KEY_CAP - 1)]
  }

  /** The IEEE a key is restored to. */
  function Restored(key: string): U64 {
    Strtoull(key)
  }

  /** The first IEEE that needs all 16 digits. */
  const LONG: int := 0x1000_0000_0000_0000

  /** The IEEE whose options a restart touches: the low digit of a long one is lost. */
  function Canonical(ieee: U64): U64 {
    if ieee < LONG then ieee else ieee / 16
  }

  /** key_for as the source writes it. */
  method WriteKey(out: array<char>, ieee: U64)
    requires out.Length == KEY_CAP
    modifies out
    ensures CStr(out[..]) == KeyFor(ieee)
  {
    hide Hex;
    var digits := Hex(ieee, 14, false);
    var n := Snprintf(out, 0, KEY_CAP, digits);
    HexRoundTrip(ieee, 14, false);
    var key := KeyFor(ieee);
    assert NUL !in key by {
      forall k | 0 <= k < |key|
        ensures key[k] != NUL
      {
        assert key[k] == digits[k] && DigitValue(digits[k]) >= 0;
      }
    }
    assert out[..][..|key|] == key;
    CStrUnique(out[..], |key|);
  }

  lemma {:induction false} ShortKey(ieee: U64)
    requires ieee < LONG
    ensures KeyFor(ieee) == Hex(ieee, 14, false)
  {
    hide Hex;
    PowersOfSixteen();
    HexLength(ieee, 14, false, 15);
    var d := Hex(ieee, 14, false);
    assert d[..|d|] == d;
  }

  lemma {:induction false} WidthIdle(n: nat, k: nat, a: nat, b: nat, upper: bool)
    requires n >= Pow16(k) && a <= k + 1 && b <= k + 1
    ensures Hex(n, a, upper) == Hex(n, b, upper)
  {
    assert n > 0;
    var a', b' := if a == 0 then 0 else a - 1, if b == 0 then 0 else b - 1;
    assert Hex(n, a, upper) == Hex(n / 16, a', upper) + [HexDigit(n % 16, upper)];
    assert Hex(n, b, upper) == Hex(n / 16, b', upper) + [HexDigit(n % 16, upper)];
    if k > 0 { WidthIdle(n / 16, k - 1, a', b', upper); }
  }

  lemma {:induction false} LongKey(ieee: U64)
    requires ieee >= LONG
    ensures KeyFor(ieee) == Hex(ieee / 16, 14, false)
  {
    PowersOfSixteen();
    HexLength(ieee, 14, false, 16);
    HexLong(ieee, 14, false, 15);
    var d := Hex(ieee, 14, false);
    assert d[..15] == Hex(ieee / 16, 13, false);
    WidthIdle(ieee / 16, 14, 13, 14, false);
  }

  /** A key is the plain 14-digit print of the canonical IEEE. */
  lemma KeyIsCanonical(ieee: U64)
    ensures KeyFor(ieee) == Hex(Canonical(ieee), 14, false)
  {
    if ieee < LONG { ShortKey(ieee); } else { LongKey(ieee); }
  }

  /** Fourteen or fifteen lower-case digits. */
  lemma KeyForm(ieee: U64)
    ensures 14 <= |KeyFor(ieee)| <= 15
    ensures forall k :: 0 <= k < |KeyFor(ieee)| ==> KeyFor(ieee)[k] in "0123456789abcdef"
  {
    hide Hex, Canonical;
    KeyIsCanonical(ieee);
    CanonicalShort(ieee);
    HexAlphabet(Canonical(ieee), 14, false);
    PowersOfSixteen();
    HexLength(Canonical(ieee), 14, false, 15);
  }

  lemma CanonicalShort(ieee: U64)
    ensures 0 <= Canonical(ieee) < LONG
  {
  }

  /** Reading a key back gives the canonical IEEE: the IEEE itself exactly when it
      has at most 15 digits, and the IEEE without its last digit otherwise. */
  lemma KeyReadsBack(ieee: U64)
    ensures Restored(KeyFor(ieee)) == Canonical(ieee)
    ensures Restored(KeyFor(ieee)) == if ieee < 0x1000_0000_0000_0000 then ieee else ieee / 16
    ensures Restored(KeyFor(ieee)) == ieee <==> ieee < 0x1000_0000_0000_0000
  {
    hide Hex;
    KeyIsCanonical(ieee);
    HexRoundTrip(Canonical(ieee), 14, false);
    StrtoullOfDigits(Hex(Canonical(ieee), 14, false));
  }

  /** Two devices share a key exactly when their canonical IEEEs are equal, so
      short IEEEs never collide with each other. */
  lemma KeysCollideExactly(a: U64, b: U64)
    ensures KeyFor(a) == KeyFor(b) <==> Canonical(a) == Canonical(b)
    ensures a < LONG && b < LONG && a != b ==> KeyFor(a) != KeyFor(b)
  {
    hide KeyFor, Restored;
    KeyReadsBack(a);
    KeyReadsBack(b);
    KeyIsCanonical(a);
    KeyIsCanonical(b);
  }

  // ---- The store over a restart --------------------------------------------

  datatype Setting = Setting(ieee: U64, blob: string)

  /** The flash after a history of device_options_set. */
  function Store(h: seq<Setting>): map<string, string> {
    if h == [] then map[] else Store(h[..|h| - 1])[KeyFor(h[|h| - 1].ieee) := h[|h| - 1].blob]
  }

  /** device_options_restore_all applies this blob to this device; 0 is skipped. */
  ghost predicate Applies(flash: map<string, string>, ieee: U64, blob: string) {
    ieee != 0 && exists key :: key in flash && Restored(key) == ieee && flash[key] == blob
  }

  /** The last setting that ends up under the same canonical IEEE. */
  function LastSetting(h: seq<Setting>, ieee: U64): Option<string> {
    if h == [] then None
    else if Canonical(h[|h| - 1].ieee) == ieee then Some(h[|h| - 1].blob)
    else LastSetting(h[..|h| - 1], ieee)
  }

  lemma {:induction false} KeysAreCanonical(h: seq<Setting>, key: string)
    requires key in Store(h)
    ensures key == Hex(Restored(key), 14, false)
    ensures LastSetting(h, Restored(key)) == Some(Store(h)[key])
  {
    hide Hex, KeyFor, Restored, Canonical;
    var init, s := h[..|h| - 1], h[|h| - 1];
    KeyReadsBack(s.ieee);
    KeyIsCanonical(s.ieee);
    if key != KeyFor(s.ieee) {
      KeysAreCanonical(init, key);
    }
  }

  lemma {:induction false} LastIsStored(h: seq<Setting>, ieee: U64)
    requires LastSetting(h, ieee).Some?
    ensures Hex(ieee, 14, false) in Store(h)
  {
    hide Hex, KeyFor, Canonical;
    var init, s := h[..|h| - 1], h[|h| - 1];
    KeyIsCanonical(s.ieee);
    if Canonical(s.ieee) != ieee { LastIsStored(init, ieee); }
  }

  /** After a restart a device gets back the last options set for its canonical
      IEEE, and nothing else is applied. */
  lemma {:induction false} RestartAppliesExactly(h: seq<Setting>, ieee: U64, blob: string)
    ensures Applies(Store(h), ieee, blob) <==> ieee != 0 && LastSetting(h, ieee) == Some(blob)
  {
    hide Hex, KeyFor, Canonical, Store, LastSetting;
    if Applies(Store(h), ieee, blob) {
      var key :| key in Store(h) && Restored(key) == ieee && Store(h)[key] == blob;
      KeysAreCanonical(h, key);
    }
    if ieee != 0 && LastSetting(h, ieee) == Some(blob) {
      LastIsStored(h, ieee);
      var key := Hex(ieee, 14, false);
      PrintReadsBack(ieee);
      KeysAreCanonical(h, key);
      assert key in Store(h) && Restored(key) == ieee;
    }
  }

  /** The options set last are the ones a restart gives back, and setting them
      touches those of no device with another canonical IEEE. */
  lemma {:induction false} JustSetIsRestored(h: seq<Setting>, ieee: U64, blob: string, other: U64, before: string)
    requires 0 < ieee < 0x1000_0000_0000_0000
    ensures Applies(Store(h + [Setting(ieee, blob)]), ieee, blob)
    ensures other != ieee ==>
              (Applies(Store(h + [Setting(ieee, blob)]), other, before) <==> Applies(Store(h), other, before))
  {
    hide Applies, Store;
    var all := h + [Setting(ieee, blob)];
    assert all[..|h|] == h;
    RestartAppliesExactly(all, ieee, blob);
    RestartAppliesExactly(all, other, before);
    RestartAppliesExactly(h, other, before);
  }

  lemma {:induction false} PrintReadsBack(v: U64)
    ensures Restored(Hex(v, 14, false)) == v
  {
    hide Hex;
    HexRoundTrip(v, 14, false);
    StrtoullOfDigits(Hex(v, 14, false));
  }

  /** One long IEEE whose options are given to another device after a restart. */
  lemma LongIeeeRestoredElsewhere(blob: string)
    ensures var v: U64 := 0x5C02_72FF_FE00_0001;
            && Applies(Store([Setting(v, blob)]), 0x05C0_272F_FFE0_0000, blob)
            && !Applies(Store([Setting(v, blob)]), v, blob)
  {
    hide Store, Applies;
    var v: U64 := 0x5C02_72FF_FE00_0001;
    var h := [Setting(v, blob)];
    assert h[..|h| - 1] == [];
    assert LastSetting([], v) == None;
    RestartAppliesExactly(h, 0x05C0_272F_FFE0_0000, blob);
    RestartAppliesExactly(h, v, blob);
  }
}
