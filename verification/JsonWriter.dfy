// The bounded writer of main/json_buf.h and its behaviour over any sequence of
// appends.
module JsonWriter {
  import opened Bytes
  import opened Numbers
  import opened StringEscape
  import Utf8

  /** What a writer has accepted so far, and whether every append fitted. */
  datatype View = View(text: string, ok: bool)

  /** An append by single bytes: on overflow the bytes that fit are kept. */
  function PutAll(v: View, cap: nat, add: string): View
    requires |v.text| <= cap
  {
    if !v.ok then v
    else if |v.text| + |add| <= cap then View(v.text + add, true)
    else View((v.text + add)[..cap], false)
  }

  /** An append by vsnprintf, which needs one byte more for its NUL and is all
      or nothing. */
  function PutFmt(v: View, cap: nat, add: string): View
    requires |v.text| <= cap
  {
    if !v.ok then v
    else if |v.text| + |add| < cap then View(v.text + add, true)
    else View(v.text, false)
  }

  lemma PutAllSplit(v: View, cap: nat, a: string, b: string)
    requires |v.text| <= cap
    ensures |PutAll(v, cap, a).text| <= cap
    ensures PutAll(PutAll(v, cap, a), cap, b) == PutAll(v, cap, a + b)
  {
    assert v.text + a + b == v.text + (a + b);
    if v.ok && |v.text| + |a| > cap {
      assert (v.text + a + b)[..cap] == (v.text + a)[..cap];
    }
  }

  lemma PutNothing(v: View, cap: nat)
    requires |v.text| <= cap
    ensures PutAll(v, cap, []) == v
  {
    assert v.text + [] == v.text;
  }

  class JsonWriter {
    const buf: array<char>
    const cap: nat
    var pos: nat
    var ok: bool

    ghost predicate Valid()
      reads this
    {
      pos <= cap <= buf.Length
    }

    ghost function State(): (v: View)
      requires Valid()
      reads this, buf
      ensures |v.text| == pos && v.ok == ok
    {
      View(buf[..pos], ok)
    }

    constructor (buf: array<char>, cap: nat)
      requires cap <= buf.Length
      ensures Valid() && this.buf == buf && this.cap == cap
      ensures State() == View([], true)
    {
      this.buf, this.cap, pos, ok := buf, cap, 0, true;
    }

    /** put: the only place that stores a byte. */
    method Put(c: char) returns (fit: bool)
      requires Valid() && ok
      modifies this, buf
      ensures Valid() && fit == ok
      ensures State() == PutAll(old(State()), cap, [c])
      ensures buf[cap..] == old(buf[cap..])
    {
      if pos >= cap {
        ok := false;
        assert (buf[..pos] + [c])[..cap] == buf[..pos];
        return false;
      }
      buf[pos] := c;
      pos := pos + 1;
      return true;
    }

    /** The loops `fit = put(...)` over the bytes of one character. */
    method PutText(t: string) returns (fit: bool)
      requires Valid() && ok
      modifies this, buf
      ensures Valid() && fit == ok
      ensures State() == PutAll(old(State()), cap, t)
      ensures buf[cap..] == old(buf[cap..])
    {
      fit := true;
      ghost var v := State();
      PutNothing(v, cap);
      var k := 0;
      while k < |t| && fit
        invariant k <= |t|
        invariant Valid() && fit == ok
        invariant State() == PutAll(v, cap, t[..k])
        invariant buf[cap..] == old(buf[cap..])
      {
        PutAllSplit(v, cap, t[..k], [t[k]]);
        assert t[..k] + [t[k]] == t[..k + 1];
        fit := Put(t[k]);
        k := k + 1;
      }
      PutAllSplit(v, cap, t[..k], t[k..]);
      assert t[..k] + t[k..] == t;
      if fit { PutNothing(State(), cap); }
    }

    /** raw(s): everything before the first NUL. */
    method Raw(mem: string)
      requires Valid() && NUL in mem
      modifies this, buf
      ensures Valid()
      ensures State() == PutAll(old(State()), cap, CStr(mem))
      ensures buf[cap..] == old(buf[cap..])
    {
      if !ok { return; }
      ghost var v, s := State(), CStr(mem);
      PutNothing(v, cap);
      var i := 0;
      while mem[i] != NUL
        invariant i <= |s|
        invariant Valid() && ok
        invariant State() == PutAll(v, cap, s[..i])
        invariant buf[cap..] == old(buf[cap..])
        decreases |s| - i
      {
        PutAllSplit(v, cap, s[..i], [mem[i]]);
        assert s[..i] + [mem[i]] == s[..i + 1];
        var fit := Put(mem[i]);
        i := i + 1;
        if !fit { break; }
      }
      PutAllSplit(v, cap, s[..i], s[i..]);
      assert s[..i] + s[i..] == s;
      if i == |s| { PutNothing(State(), cap); }
    }

    /** raw(s, len): exactly `len` bytes, whatever they are. */
    method RawBytes(mem: string, len: nat)
      requires Valid() && len <= |mem|
      modifies this, buf
      ensures Valid()
      ensures State() == PutAll(old(State()), cap, mem[..len])
      ensures buf[cap..] == old(buf[cap..])
    {
      if !ok { return; }
      var fit := PutText(mem[..len]);
    }

    /** ch(c). */
    method Ch(c: char)
      requires Valid()
      modifies this, buf
      ensures Valid()
      ensures State() == PutAll(old(State()), cap, [c])
      ensures buf[cap..] == old(buf[cap..])
    {
      if ok {
        var fit := Put(c);
      }
    }

    /** fmt: `text` is what the format expands to, None when vsnprintf reports an
        error. */
    method Fmt(text: Option<string>)
      requires Valid()
      modifies this, buf
      ensures Valid()
      ensures State() == if text.Some? then PutFmt(old(State()), cap, text.value) else View(old(State()).text, false)
      ensures buf[cap..] == old(buf[cap..])
    {
      if !ok { return; }
      var rem := cap - pos;
      if text.None? {
        ok := false;
        return;
      }
      var n := Snprintf(buf, pos, rem, text.value);
      if n >= rem {
        ok := false;
        return;
      }
      assert text.value[..n] == text.value;
      pos := pos + n;
    }

    /** One turn of the loop of str: the character at offset `i`. */
    method StrStep(mem: string, max: nat, i: nat) returns (used: nat, fit: bool)
      requires Valid() && ok && Readable(mem, 0, max)
      requires i < max && i <= |CStr(Window(mem, 0, max))| && i < |mem| && mem[i] != NUL
      modifies this, buf
      ensures Valid() && fit == ok
      ensures var s := CStr(Window(mem, 0, max));
              && i < |s|
              && used == NextChunk(s[i..]).used
              && State() == PutAll(old(State()), cap, NextChunk(s[i..]).text)
      ensures buf[cap..] == old(buf[cap..])
    {
      hide PutAll, Utf8.PrefixLen, Hex;
      SourceAt(mem, max, i);
      ghost var t := CStr(Window(mem, 0, max))[i..];
      var c := mem[i];
      used := 1;
      if c == '\"' || c == '\\' || c == '\n' || c == '\r' || c == '\t' {
        var e := if c == '\"' then '\"' else if c == '\\' then '\\'
                 else if c == '\n' then 'n' else if c == '\r' then 'r' else 't';
        fit := PutText(['\\', e]);
      } else if c < ' ' {
        fit := PutText(ControlEscape(c));
      } else if c as int < 0x80 {
        fit := Put(c);
      } else {
        Utf8.ReadableSequence(mem, i, max - i);
        var n := Utf8.SeqLen(mem, i, max - i);
        if n > 0 {
          SourceSlice(mem, max, i, n);
          fit := PutText(mem[i..i + n]);
          used := n;
        } else {
          fit := PutText("\\ufffd");
        }
      }
    }

    /** str(s, max): the escaped, UTF-8-sanitised source, read up to `max` bytes
        or its NUL. */
    method Str(mem: string, max: nat)
      requires Valid() && Readable(mem, 0, max)
      modifies this, buf
      ensures Valid()
      ensures State() == PutAll(old(State()), cap, Escaped(CStr(Window(mem, 0, max))))
      ensures buf[cap..] == old(buf[cap..])
    {
      hide PutAll, Escaped, NextChunk, Progress, CStr, Window;
      if !ok {
        PutNotOk(State(), cap, Escaped(CStr(Window(mem, 0, max))));
        return;
      }
      var i := 0;
      ghost var v, s, done := State(), CStr(Window(mem, 0, max)), "";
      PutNothing(v, cap);
      ProgressStart(s);
      SourceEnd(mem, max, i);
      while i < max && mem[i] != NUL
        invariant Progress(s, i, done) && (i < max ==> i < |mem|)
        invariant Valid() && ok
        invariant State() == PutAll(v, cap, done)
        invariant buf[cap..] == old(buf[cap..])
        decreases |s| - i
      {
        ProgressBound(s, i, done);
        SourceAt(mem, max, i);
        EscapedStep(s, i, done);
        ghost var p := NextChunk(s[i..]);
        PutAllSplit(v, cap, done, p.text);
        var used, fit := StrStep(mem, max, i);
        done := done + p.text;
        i := i + used;
        ProgressBound(s, i, done);
        if !fit { break; }
        SourceEnd(mem, max, i);
      }
      ProgressBound(s, i, done);
      if ok {
        SourceEnd(mem, max, i);
      }
      ProgressEnd(s, i, done, v, cap);
    }

    /** finish(): the length of the text, or 0 once any append has overflowed. A
        nonzero result says that the buffer starts with all that was appended. */
    method Finish() returns (n: nat)
      requires Valid()
      ensures n == if State().ok then |State().text| else 0
      ensures n > 0 ==> State() == View(buf[..n], true)
    {
      n := if ok then pos else 0;
    }
  }

  lemma PutNotOk(v: View, cap: nat, add: string)
    requires |v.text| <= cap && !v.ok
    ensures PutAll(v, cap, add) == v
  {
  }

  /** The bytes at offset `i` of the source, as str() and the validator see them. */
  lemma SourceAt(mem: string, max: nat, i: nat)
    requires Readable(mem, 0, max)
    requires i <= |CStr(Window(mem, 0, max))|
    ensures i < max ==> i < |mem|
    ensures i < max && mem[i] != NUL ==>
              var s := CStr(Window(mem, 0, max));
              && i < |s| && s[i] == mem[i]
              && Readable(mem, i, max - i)
              && Utf8.PrefixLen(Window(mem, i, max - i)) == Utf8.PrefixLen(s[i..])
  {
    hide Utf8.PrefixLen;
    var w := Window(mem, 0, max);
    var s := CStr(w);
    if NUL in mem && i < max {
      var z :| 0 <= z < |mem| && mem[z] == NUL;
      assert forall k :: 0 <= k < |s| ==> mem[k] == s[k] != NUL;
      assert mem[i..][z - i] == NUL;
      if i < max && mem[i] != NUL {
        assert w[i] == mem[i];
      }
    }
    if i < max && mem[i] != NUL {
      assert i < |w| && w[i] == mem[i];
      CStrDrop(w, i);
      Utf8.PrefixLenOfCStr(w[i..]);
      assert w[i..] == Window(mem, i, max - i);
    }
  }

  lemma SourceSlice(mem: string, max: nat, i: nat, n: nat)
    requires i + n <= |CStr(Window(mem, 0, max))|
    ensures i + n <= |mem| && mem[i..i + n] == CStr(Window(mem, 0, max))[i..][..n]
  {
    var s := CStr(Window(mem, 0, max));
    assert s <= Window(mem, 0, max) <= mem;
    assert s[i..][..n] == s[i..i + n];
  }

  lemma SourceEnd(mem: string, max: nat, i: nat)
    requires Readable(mem, 0, max)
    requires i <= |CStr(Window(mem, 0, max))|
    ensures i < max ==> i < |mem|
    ensures i >= max || mem[i] == NUL ==> CStr(Window(mem, 0, max))[i..] == []
  {
    hide Utf8.PrefixLen;
    SourceAt(mem, max, i);
    var w := Window(mem, 0, max);
    if i < max && mem[i] == NUL {
      assert forall k :: 0 <= k < |CStr(w)| ==> mem[k] == CStr(w)[k] != NUL;
    }
  }

  /** `done` is what has been emitted for the first `i` bytes of `s`. */
  ghost predicate Progress(s: string, i: nat, done: string) {
    i <= |s| && done + Escaped(s[i..]) == Escaped(s)
  }

  lemma EscapedStep(s: string, i: nat, done: string)
    requires i < |s| && Progress(s, i, done)
    ensures Progress(s, i + NextChunk(s[i..]).used, done + NextChunk(s[i..]).text)
  {
    hide NextChunk, Escaped;
    var t := s[i..];
    var p := NextChunk(t);
    var rest := t[p.used..];
    EscapedUnfold(t);
    assert rest == s[i + p.used..];
    calc {
      Escaped(s);
      done + Escaped(t);
      done + (p.text + Escaped(rest));
      (done + p.text) + Escaped(rest);
    }
  }

  lemma ProgressBound(s: string, i: nat, done: string)
    requires Progress(s, i, done)
    ensures i <= |s|
  {
  }

  lemma ProgressStart(s: string)
    ensures Progress(s, 0, "")
  {
    assert s[0..] == s;
  }

  /** The loop stops at the end of the source or in a full writer. */
  lemma {:induction false} ProgressEnd(s: string, i: nat, done: string, v: View, cap: nat)
    requires Progress(s, i, done) && |v.text| <= cap
    requires s[i..] == [] || !PutAll(v, cap, done).ok
    ensures PutAll(v, cap, done) == PutAll(v, cap, Escaped(s))
  {
  }

  lemma {:induction false} EscapedUnfold(t: string)
    requires t != []
    ensures Escaped(t) == NextChunk(t).text + Escaped(t[NextChunk(t).used..])
  {
  }

  // ---- Sequences of appends -----------------------------------------------

  /** raw, ch and str append by bytes, fmt by vsnprintf. */
  datatype Op = Bytewise(text: string) | Formatted(text: string)

  function Apply(v: View, cap: nat, op: Op): (r: View)
    requires |v.text| <= cap
    ensures |r.text| <= cap
  {
    match op
    case Bytewise(text) => PutAll(v, cap, text)
    case Formatted(text) => PutFmt(v, cap, text)
  }

  function Run(v: View, cap: nat, ops: seq<Op>): (r: View)
    requires |v.text| <= cap
    ensures |r.text| <= cap
    decreases |ops|
  {
    if ops == [] then v else Run(Apply(v, cap, ops[0]), cap, ops[1..])
  }

  lemma {:induction false} RunAppend(v: View, cap: nat, ops: seq<Op>, op: Op)
    requires |v.text| <= cap
    ensures Run(v, cap, ops + [op]) == Apply(Run(v, cap, ops), cap, op)
    decreases |ops|
  {
    hide Apply;
    var all := ops + [op];
    if ops == [] {
      assert all[1..] == [];
    } else {
      assert all[1..] == ops[1..] + [op];
      RunAppend(Apply(v, cap, ops[0]), cap, ops[1..], op);
    }
  }

  /** The text a writer without bound would hold. */
  function Concatenation(ops: seq<Op>): string {
    if ops == [] then [] else ops[0].text + Concatenation(ops[1..])
  }

  /** Every append of `ops` ends inside the buffer, a formatted one with a byte
      to spare. */
  predicate AllFit(len: nat, cap: nat, ops: seq<Op>)
    decreases |ops|
  {
    ops == [] ||
    (len + |ops[0].text| + (if ops[0].Formatted? then 1 else 0) <= cap &&
     AllFit(len + |ops[0].text|, cap, ops[1..]))
  }

  /** A failure is permanent, whatever is appended afterwards. */
  lemma {:induction false} FailureIsPermanent(v: View, cap: nat, ops: seq<Op>)
    requires |v.text| <= cap && !v.ok
    ensures Run(v, cap, ops) == v
  {
    if ops != [] {
      FailureIsPermanent(v, cap, ops[1..]);
    }
  }

  /** The writer ends ok exactly when every append fitted, and then it holds the
      whole concatenation. */
  lemma {:induction false} OkMeansComplete(v: View, cap: nat, ops: seq<Op>)
    requires |v.text| <= cap && v.ok
    ensures Run(v, cap, ops).ok <==> AllFit(|v.text|, cap, ops)
    ensures Run(v, cap, ops).ok ==> Run(v, cap, ops).text == v.text + Concatenation(ops)
    decreases |ops|
  {
    if ops == [] {
      assert v.text + [] == v.text;
    } else {
      var w := Apply(v, cap, ops[0]);
      if w.ok {
        OkMeansComplete(w, cap, ops[1..]);
        assert v.text + (ops[0].text + Concatenation(ops[1..])) == w.text + Concatenation(ops[1..]);
      } else {
        FailureIsPermanent(w, cap, ops[1..]);
      }
    }
  }

  /** When the last append is not formatted and adds a byte, only the total counts. */
  lemma {:induction false} OnlyTheTotalCounts(len: nat, cap: nat, ops: seq<Op>)
    requires ops != [] && ops[|ops| - 1].Bytewise? && ops[|ops| - 1].text != []
    ensures AllFit(len, cap, ops) <==> len + |Concatenation(ops)| <= cap
    decreases |ops|
  {
    var first, rest := ops[0], ops[1..];
    if |ops| == 1 {
      assert Concatenation(ops) == first.text + [];
    } else {
      assert rest[|rest| - 1] == ops[|ops| - 1];
      OnlyTheTotalCounts(len + |first.text|, cap, rest);
      LastIsIncluded(rest);
      assert |Concatenation(ops)| == |first.text| + |Concatenation(rest)|;
    }
  }

  lemma {:induction false} LastIsIncluded(ops: seq<Op>)
    requires ops != []
    ensures |Concatenation(ops)| >= |ops[|ops| - 1].text|
  {
    if |ops| > 1 { LastIsIncluded(ops[1..]); }
  }
}
