// grp_to_json of main/groups_store.cpp on top of the bounded writer.
module GroupJson {
  import opened Bytes
  import opened Numbers
  import opened JsonText
  import opened JsonFields
  import opened StringEscape
  import W = JsonWriter
  import G = GroupStore

  /** The members a reply shows: never more than the array holds. */
  function Shown(r: G.Record): seq<G.Member> {
    r.members[..Min(r.memberCount, G.MAX_MEMBERS)]
  }

  function MemberDoc(m: G.Member): Doc {
    DObj([Field("ieee", DStr(IeeeText(m.ieee))), Field("ep", DInt(m.ep))])
  }

  function MemberDocs(ms: seq<G.Member>): (r: seq<Doc>)
    ensures |r| == |ms|
  {
    seq(|ms|, k requires 0 <= k < |ms| => MemberDoc(ms[k]))
  }

  function GroupDoc(r: G.Record): Doc {
    DObj([Field("id", DInt(r.id)), Field("name", DStr(Escaped(CStr(r.name)))),
          Field("members", DArr(MemberDocs(Shown(r))))])
  }

  /** The expansion of the member format. */
  function MemberText(m: G.Member): string {
    "{\"ieee\":\"0x" + Hex(m.ieee, 16, true) + "\",\"ep\":" + Dec(m.ep) + "}"
  }

  /** The appends for the members from the first on. */
  function MemberOps(ms: seq<G.Member>): seq<W.Op> {
    if ms == [] then []
    else
      var k := |ms| - 1;
      MemberOps(ms[..k]) + (if k == 0 then [] else [W.Bytewise(",")]) + [W.Formatted(MemberText(ms[k]))]
  }

  function HeadOps(r: G.Record): seq<W.Op> {
    [W.Formatted("{\"id\":" + Dec(r.id) + ",\"name\":\""), W.Bytewise(Escaped(CStr(r.name))),
     W.Bytewise("\",\"members\":[")]
  }

  /** All appends of grp_to_json. */
  function GroupOps(r: G.Record): seq<W.Op> {
    HeadOps(r) + MemberOps(Shown(r)) + [W.Bytewise("]}")]
  }

  // ---- The text ------------------------------------------------------------

  lemma {:induction false} ConcatenationAppend(a: seq<W.Op>, b: seq<W.Op>)
    ensures W.Concatenation(a + b) == W.Concatenation(a) + W.Concatenation(b)
  {
    if a == [] {
      assert a + b == b;
      assert [] + W.Concatenation(b) == W.Concatenation(b);
    } else {
      assert (a + b)[1..] == a[1..] + b;
      ConcatenationAppend(a[1..], b);
      assert a[0].text + (W.Concatenation(a[1..]) + W.Concatenation(b)) ==
             a[0].text + W.Concatenation(a[1..]) + W.Concatenation(b);
    }
  }

  lemma ConcatenationOne(op: W.Op)
    ensures W.Concatenation([op]) == op.text
  {
    assert op.text + [] == op.text;
  }

  lemma MemberIsDoc(m: G.Member)
    ensures Render(MemberDoc(m)) == MemberText(m)
  {
    hide Hex, Dec, RenderFields, RenderField, IeeeText;
    var f, g := Field("ieee", DStr(IeeeText(m.ieee))), Field("ep", DInt(m.ep));
    assert [f, g][1..] == [g];
    TwoFields(f, g);
    IeeeField(m.ieee);
    EpField(m.ep);
    var h, d := Hex(m.ieee, 16, true), Dec(m.ep);
    assert "{" + ("\"ieee\":\"0x" + h + "\"" + "," + ("\"ep\":" + d)) + "}" ==
           "{\"ieee\":\"0x" + h + "\",\"ep\":" + d + "}";
  }

  lemma {:induction false} IeeeField(ieee: U64)
    ensures RenderField(Field("ieee", DStr(IeeeText(ieee)))) == "\"ieee\":\"0x" + Hex(ieee, 16, true) + "\""
  {
    hide Hex;
    var h := Hex(ieee, 16, true);
    assert Render(DStr(IeeeText(ieee))) == "\"" + ("0x" + h) + "\"";
    assert Quoted("ieee") + ":" + ("\"" + ("0x" + h) + "\"") == "\"ieee\":\"0x" + h + "\"";
  }

  lemma {:induction false} EpField(ep: nat)
    ensures RenderField(Field("ep", DInt(ep))) == "\"ep\":" + Dec(ep)
  {
    hide Dec;
    assert Render(DInt(ep)) == Dec(ep);
    assert Quoted("ep") + ":" == "\"ep\":";
  }

  lemma {:induction false} MembersText(ms: seq<G.Member>)
    ensures W.Concatenation(MemberOps(ms)) == RenderItems(MemberDocs(ms))
  {
    hide MemberDoc, MemberText, Render;
    if ms != [] {
      var k := |ms| - 1;
      var init := ms[..k];
      var sep := if k == 0 then [] else [W.Bytewise(",")];
      MembersText(init);
      assert MemberDocs(ms) == MemberDocs(init) + [MemberDoc(ms[k])];
      RenderItemsAppend(MemberDocs(init), MemberDoc(ms[k]));
      MemberIsDoc(ms[k]);
      ConcatenationAppend(MemberOps(init) + sep, [W.Formatted(MemberText(ms[k]))]);
      ConcatenationAppend(MemberOps(init), sep);
      ConcatenationOne(W.Formatted(MemberText(ms[k])));
      ConcatenationOne(W.Bytewise(","));
      assert W.Concatenation(sep) == Comma(k == 0);
    }
  }

  lemma GroupFields(r: G.Record)
    ensures RenderField(Field("id", DInt(r.id))) == "\"id\":" + Dec(r.id)
    ensures RenderField(Field("name", DStr(Escaped(CStr(r.name))))) == "\"name\":\"" + Escaped(CStr(r.name)) + "\""
    ensures RenderField(Field("members", DArr(MemberDocs(Shown(r))))) ==
            "\"members\":[" + RenderItems(MemberDocs(Shown(r))) + "]"
  {
    hide Dec, Escaped, RenderItems, MemberDocs, Shown, CStr;
    assert Render(DInt(r.id)) == Dec(r.id);
    assert Quoted("id") + ":" == "\"id\":";
    var e := Escaped(CStr(r.name));
    assert Render(DStr(e)) == "\"" + e + "\"";
    assert Quoted("name") + ":" + ("\"" + e + "\"") == "\"name\":\"" + e + "\"";
    var x := RenderItems(MemberDocs(Shown(r)));
    assert Render(DArr(MemberDocs(Shown(r)))) == "[" + x + "]";
    assert Quoted("members") + ":" + ("[" + x + "]") == "\"members\":[" + x + "]";
  }

  lemma HeadText(r: G.Record)
    ensures W.Concatenation(HeadOps(r)) ==
            "{\"id\":" + Dec(r.id) + ",\"name\":\"" + (Escaped(CStr(r.name)) + "\",\"members\":[")
  {
    hide Dec, Escaped, CStr;
    var ops := HeadOps(r);
    assert ops[1..] == [ops[1], ops[2]] && ops[1..][1..] == [ops[2]];
    ConcatenationOne(ops[2]);
    assert W.Concatenation(ops[1..]) == ops[1].text + ops[2].text;
  }

  lemma JoinText(d: string, e: string, x: string)
    ensures "{" + ("\"id\":" + d + "," + ("\"name\":\"" + e + "\"" + "," + ("\"members\":[" + x + "]"))) + "}" ==
            "{\"id\":" + d + ",\"name\":\"" + (e + "\",\"members\":[") + x + "]}"
  {
    assert "\"name\":\"" + e + "\"" + "," + ("\"members\":[" + x + "]") ==
           "\"name\":\"" + e + "\",\"members\":[" + x + "]";
  }

  /** Without a bound the appends would write the group as a JSON object. */
  lemma OpsAreDoc(r: G.Record)
    ensures W.Concatenation(GroupOps(r)) == Render(GroupDoc(r))
  {
    hide Dec, Escaped, RenderItems, RenderField, RenderFields, MemberDocs, MemberOps, HeadOps, Shown, CStr;
    ConcatenationAppend(HeadOps(r) + MemberOps(Shown(r)), [W.Bytewise("]}")]);
    ConcatenationAppend(HeadOps(r), MemberOps(Shown(r)));
    ConcatenationOne(W.Bytewise("]}"));
    HeadText(r);
    MembersText(Shown(r));
    GroupFields(r);
    ThreeFields(Field("id", DInt(r.id)), Field("name", DStr(Escaped(CStr(r.name)))),
                Field("members", DArr(MemberDocs(Shown(r)))));
    JoinText(Dec(r.id), Escaped(CStr(r.name)), RenderItems(MemberDocs(Shown(r))));
  }

  // ---- grp_to_json ---------------------------------------------------------

  /** The writer after some of the appends. */
  ghost predicate WriterAfter(w: W.JsonWriter, buf: array<char>, cap: nat, ops: seq<W.Op>)
    requires cap <= buf.Length
    reads w, buf
  {
    w.buf == buf && w.cap == cap && w.Valid() && w.State() == W.Run(W.View([], true), cap, ops)
  }

  lemma {:induction false} Appended(cap: nat, ops: seq<W.Op>, op: W.Op)
    ensures W.Run(W.View([], true), cap, ops + [op]) == W.Apply(W.Run(W.View([], true), cap, ops), cap, op)
  {
    W.RunAppend(W.View([], true), cap, ops, op);
  }

  method AppendFmt(w: W.JsonWriter, buf: array<char>, cap: nat, text: string, ghost ops: seq<W.Op>)
    requires cap <= buf.Length && WriterAfter(w, buf, cap, ops)
    modifies w, buf
    ensures WriterAfter(w, buf, cap, ops + [W.Formatted(text)]) && buf[cap..] == old(buf[cap..])
  {
    hide W.Run, W.PutFmt;
    Appended(cap, ops, W.Formatted(text));
    w.Fmt(Some(text));
  }

  method AppendRaw(w: W.JsonWriter, buf: array<char>, cap: nat, text: string, ghost ops: seq<W.Op>)
    requires cap <= buf.Length && WriterAfter(w, buf, cap, ops) && NUL !in text
    modifies w, buf
    ensures WriterAfter(w, buf, cap, ops + [W.Bytewise(text)]) && buf[cap..] == old(buf[cap..])
  {
    hide W.Run, W.PutAll, CStr, Literal;
    Appended(cap, ops, W.Bytewise(text));
    CStrOfLiteral(text);
    w.Raw(Literal(text));
  }

  lemma MemberOpsStep(ms: seq<G.Member>, i: nat)
    requires i < |ms|
    ensures MemberOps(ms[..i + 1]) ==
            MemberOps(ms[..i]) + (if i == 0 then [] else [W.Bytewise(",")]) + [W.Formatted(MemberText(ms[i]))]
  {
    hide MemberText;
    assert ms[..i + 1][..i] == ms[..i];
  }

  /** grp_to_json: the whole object or nothing; a NUL follows whenever there is
      room for one, and nothing behind `cap` changes. */
  method GrpToJson(r: G.Record, buf: array<char>, cap: nat) returns (len: nat)
    requires cap <= buf.Length
    modifies buf
    ensures len == if |Render(GroupDoc(r))| <= cap then |Render(GroupDoc(r))| else 0
    ensures len > 0 ==> buf[..len] == Render(GroupDoc(r))
    ensures len < cap ==> buf[len] == NUL
    ensures buf[cap..] == old(buf[cap..])
  {
    hide WriterAfter, Dec, Hex, Escaped, CStr, MemberText, MemberOps, Render, GroupDoc;
    var w := new W.JsonWriter(buf, cap);
    ghost var ops: seq<W.Op> := [];
    WriterStart(w, buf, cap);
    AppendFmt(w, buf, cap, "{\"id\":" + Dec(r.id) + ",\"name\":\"", ops);
    ops := ops + [W.Formatted("{\"id\":" + Dec(r.id) + ",\"name\":\"")];
    AppendName(w, buf, cap, r, ops);
    ops := ops + [W.Bytewise(Escaped(CStr(r.name)))];
    AppendRaw(w, buf, cap, "\",\"members\":[", ops);
    ops := ops + [W.Bytewise("\",\"members\":[")];
    var mc := if r.memberCount > G.MAX_MEMBERS then G.MAX_MEMBERS else r.memberCount;
    ghost var ms := Shown(r);
    NoMemberOps(ms);
    assert ops == HeadOps(r) + MemberOps(ms[..0]);
    for i := 0 to mc
      invariant ops == HeadOps(r) + MemberOps(ms[..i])
      invariant WriterAfter(w, buf, cap, ops)
      invariant buf[cap..] == old(buf[cap..])
    {
      MemberOpsStep(ms, i);
      if i > 0 {
        AppendRaw(w, buf, cap, ",", ops);
        ops := ops + [W.Bytewise(",")];
      }
      AppendFmt(w, buf, cap, MemberText(r.members[i]), ops);
      ops := ops + [W.Formatted(MemberText(r.members[i]))];
    }
    assert ms[..mc] == ms;
    AppendRaw(w, buf, cap, "]}", ops);
    ops := ops + [W.Bytewise("]}")];
    assert ops == GroupOps(r);
    WriterEnd(w, buf, cap, r);
    len := w.Finish();
    if len < cap { buf[len] := NUL; }
  }

  lemma WriterStart(w: W.JsonWriter, buf: array<char>, cap: nat)
    requires cap <= buf.Length && w.buf == buf && w.cap == cap && w.Valid() && w.State() == W.View([], true)
    ensures WriterAfter(w, buf, cap, [])
  {
  }

  lemma NoMemberOps(ms: seq<G.Member>)
    ensures MemberOps(ms[..0]) == []
  {
  }

  method AppendName(w: W.JsonWriter, buf: array<char>, cap: nat, r: G.Record, ghost ops: seq<W.Op>)
    requires cap <= buf.Length && WriterAfter(w, buf, cap, ops)
    modifies w, buf
    ensures WriterAfter(w, buf, cap, ops + [W.Bytewise(Escaped(CStr(r.name)))]) && buf[cap..] == old(buf[cap..])
  {
    hide W.Run, W.PutAll, CStr, Escaped;
    Appended(cap, ops, W.Bytewise(Escaped(CStr(r.name))));
    assert Window(r.name, 0, 32) == r.name;
    w.Str(r.name, 32);
  }

  lemma WriterEnd(w: W.JsonWriter, buf: array<char>, cap: nat, r: G.Record)
    requires cap <= buf.Length && WriterAfter(w, buf, cap, GroupOps(r))
    ensures w.Valid() && w.buf == buf && w.cap == cap
    ensures w.ok <==> |Render(GroupDoc(r))| <= cap
    ensures w.ok ==> buf[..w.pos] == Render(GroupDoc(r))
  {
    hide W.Run, Render, GroupDoc, HeadOps, MemberOps;
    W.OkMeansComplete(W.View([], true), cap, GroupOps(r));
    W.OnlyTheTotalCounts(0, cap, GroupOps(r));
    OpsAreDoc(r);
  }

  // ---- What a client reads -------------------------------------------------

  function MemberValue(m: G.Member): Json {
    JObj([Member("ieee", JStr(IeeeText(m.ieee))), Member("ep", JInt(m.ep))])
  }

  function MemberValues(ms: seq<G.Member>): (r: seq<Json>)
    ensures |r| == |ms|
  {
    seq(|ms|, k requires 0 <= k < |ms| => MemberValue(ms[k]))
  }

  /** The group as a client decodes it: the name with its bad bytes replaced. */
  function GroupValue(r: G.Record): Json {
    JObj([Member("id", JInt(r.id)), Member("name", JStr(Repair(CStr(r.name)))),
          Member("members", JArr(MemberValues(Shown(r))))])
  }

  lemma MemberReads(m: G.Member)
    ensures WellFormed(MemberDoc(m)) && Meaning(MemberDoc(m)) == MemberValue(m)
  {
    hide IeeeText, ReadsAs;
    IeeeReadsAs("ieee", m.ieee);
    IntReadsAs("ep", m.ep);
    ObjectMeaning(MemberDoc(m), MemberValue(m).members);
  }

  lemma MembersRead(ms: seq<G.Member>)
    ensures forall k :: 0 <= k < |ms| ==> WellFormed(MemberDocs(ms)[k])
    ensures Meanings(MemberDocs(ms)) == MemberValues(ms)
  {
    hide MemberDoc, MemberValue, Meaning, WellFormed;
    forall k | 0 <= k < |ms|
      ensures WellFormed(MemberDocs(ms)[k]) && Meaning(MemberDocs(ms)[k]) == MemberValues(ms)[k]
    {
      MemberReads(ms[k]);
    }
  }

  /** The text of a group is well-formed JSON with this value. */
  lemma GroupReads(r: G.Record)
    ensures Parse(Render(GroupDoc(r))) == Some(GroupValue(r))
  {
    hide ReadsAs, MemberDocs, MemberValues, Meanings, Escaped, Repair, Shown, CStr, WellFormed, Render, Parse, Meaning;
    var d, m := GroupDoc(r), GroupValue(r).members;
    IntReadsAs("id", r.id);
    NameReadsAs(CStr(r.name));
    MembersRead(Shown(r));
    ArrayReadsAs("members", MemberDocs(Shown(r)));
    ObjectMeaning(d, m);
    ParseDocument(d);
  }

  lemma {:induction false} NameReadsAs(s: string)
    ensures ReadsAs(Field("name", DStr(Escaped(s))), Member("name", JStr(Repair(s))))
  {
    hide Escaped, Repair;
    EscapedDecodes(s);
    PlainField("name", DStr(Escaped(s)));
  }

  /** The text determines the id, the sanitised name and the clamped members. */
  lemma TextDeterminesGroup(a: G.Record, b: G.Record)
    requires Render(GroupDoc(a)) == Render(GroupDoc(b))
    ensures a.id == b.id && Repair(CStr(a.name)) == Repair(CStr(b.name)) && Shown(a) == Shown(b)
  {
    hide Repair, CStr, Render, GroupDoc, Shown, Parse, IeeeText;
    GroupReads(a);
    GroupReads(b);
    var x, y := GroupValue(a).members, GroupValue(b).members;
    assert x[0] == y[0] && x[1] == y[1] && x[2] == y[2];
    var s, t := Shown(a), Shown(b);
    assert MemberValues(s) == MemberValues(t);
    forall k | 0 <= k < |s|
      ensures |s| == |t| && s[k] == t[k]
    {
      assert |MemberValues(s)| == |MemberValues(t)|;
      assert MemberValues(s)[k] == MemberValues(t)[k];
      SameMember(s[k], t[k]);
    }
    assert |MemberValues(s)| == |MemberValues(t)|;
  }

  lemma SameMember(m: G.Member, n: G.Member)
    requires MemberValue(m) == MemberValue(n)
    ensures m == n
  {
    hide IeeeText;
    var x, y := MemberValue(m).members, MemberValue(n).members;
    assert x[0] == y[0] && x[1] == y[1];
    IeeeTextReads(m.ieee);
    IeeeTextReads(n.ieee);
  }

  lemma IeeeTextReads(v: U64)
    ensures ParseIeee(Some(IeeeText(v))) == v
  {
    hide Hex, Strtoull;
    CursorRoundTrip(v, true);
  }

  // ---- In the record's own terms -------------------------------------------

  /** Of a record at most 16 members are shown, the first ones. */
  function ShownCount(r: G.Record): nat {
    if r.memberCount <= 16 then r.memberCount else 16
  }

  /** What a client reads of a member: its IEEE, as the hub would read it back, and
      its endpoint. */
  predicate ShowsMember(j: Json, m: G.Member) {
    && Get(j, "ieee").Some? && Get(j, "ieee").value.JStr?
    && ParseIeee(Some(Get(j, "ieee").value.bytes)) == m.ieee
    && Get(j, "ep") == Some(JInt(m.ep))
  }

  lemma MemberShown(m: G.Member)
    ensures ShowsMember(MemberValue(m), m)
  {
    hide IeeeText, ParseIeee, Lookup;
    IeeeTextReads(m.ieee);
    LookupAt(MemberValue(m).members, 0);
    LookupAt(MemberValue(m).members, 1);
  }

  /** The text of a group reads as its id, its repaired name and its first members,
      as many as it has and no more than 16. */
  lemma {:induction false} GroupSays(r: G.Record) returns (j: Json, members: seq<Json>)
    ensures Parse(Render(GroupDoc(r))) == Some(j)
    ensures Get(j, "id") == Some(JInt(r.id)) && Get(j, "name") == Some(JStr(Repair(CStr(r.name))))
    ensures Get(j, "members") == Some(JArr(members)) && |members| == ShownCount(r)
    ensures forall k :: 0 <= k < |members| ==> ShowsMember(members[k], r.members[k])
  {
    hide Render, Parse, GroupDoc, Repair, CStr, MemberValue, ShowsMember, Lookup;
    GroupReads(r);
    j := GroupValue(r);
    members := MemberValues(Shown(r));
    LookupAt(j.members, 0);
    LookupAt(j.members, 1);
    LookupAt(j.members, 2);
    forall k | 0 <= k < |members|
      ensures ShowsMember(members[k], r.members[k])
    {
      MemberShown(r.members[k]);
    }
  }

  /** And the text tells records apart by these. */
  lemma {:induction false} TextTellsApart(a: G.Record, b: G.Record)
    requires Render(GroupDoc(a)) == Render(GroupDoc(b))
    ensures a.id == b.id && Repair(CStr(a.name)) == Repair(CStr(b.name)) && ShownCount(a) == ShownCount(b)
    ensures forall k :: 0 <= k < ShownCount(a) ==> a.members[k] == b.members[k]
  {
    hide Render, GroupDoc, Repair, CStr;
    TextDeterminesGroup(a, b);
    forall k | 0 <= k < ShownCount(a)
      ensures a.members[k] == b.members[k]
    {
      assert Shown(a)[k] == a.members[k] && Shown(b)[k] == b.members[k];
    }
  }
}
