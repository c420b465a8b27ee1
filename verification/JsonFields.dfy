// Members and elements of JSON documents: how they are put together as text and
// how a client reads them.
module JsonFields {
  import opened Bytes
  import opened Numbers
  import opened JsonText
  import StringEscape

  function Comma(first: bool): string {
    if first then "" else ","
  }

  lemma {:induction false} RenderItemsAppend(items: seq<Doc>, d: Doc)
    ensures RenderItems(items + [d]) == RenderItems(items) + Comma(items == []) + Render(d)
  {
    hide Render;
    var all := items + [d];
    if items == [] {
      assert all == [d];
    } else if |items| == 1 {
      assert all[1..] == [d];
      assert all[0] == items[0];
    } else {
      assert all[1..] == items[1..] + [d] && all[0] == items[0];
      RenderItemsAppend(items[1..], d);
      var a, b := Render(items[0]) + ",", RenderItems(items[1..]);
      assert a + (b + "," + Render(d)) == a + b + "," + Render(d);
    }
  }

  lemma {:induction false} TwoFields(f: Field, g: Field)
    ensures RenderFields([f]) == RenderField(f)
    ensures RenderFields([f, g]) == RenderField(f) + "," + RenderField(g)
  {
    assert [f, g][1..] == [g];
  }

  lemma {:induction false} ThreeFields(f: Field, g: Field, h: Field)
    ensures RenderFields([f, g, h]) == RenderField(f) + "," + (RenderField(g) + "," + RenderField(h))
  {
    assert [f, g, h][1..] == [g, h];
    TwoFields(g, h);
  }

  lemma {:induction false} PlainField(key: string, d: Doc)
    requires StringEscape.Plain(key) && WellFormed(d)
    ensures WellFormedField(Field(key, d)) && FieldMeaning(Field(key, d)) == Member(key, Meaning(d))
  {
    StringEscape.UnescapePlain(key);
  }

  /** A client reads the field as this member. */
  predicate ReadsAs(f: Field, m: Member) {
    WellFormedField(f) && FieldMeaning(f) == m
  }

  lemma IntReadsAs(key: string, v: int)
    requires StringEscape.Plain(key)
    ensures ReadsAs(Field(key, DInt(v)), Member(key, JInt(v)))
  {
    PlainField(key, DInt(v));
  }

  lemma BoolReadsAs(key: string, b: bool)
    requires StringEscape.Plain(key)
    ensures ReadsAs(Field(key, DBool(b)), Member(key, JBool(b)))
  {
    PlainField(key, DBool(b));
  }

  lemma {:induction false} DocReadsAs(key: string, d: Doc)
    requires StringEscape.Plain(key) && WellFormed(d)
    ensures ReadsAs(Field(key, d), Member(key, Meaning(d)))
  {
    PlainField(key, d);
  }

  lemma ArrayMeaning(rows: seq<Doc>)
    requires forall k :: 0 <= k < |rows| ==> WellFormed(rows[k])
    ensures WellFormed(DArr(rows)) && Meaning(DArr(rows)) == JArr(Meanings(rows))
  {
  }

  lemma ArrayReadsAs(key: string, rows: seq<Doc>)
    requires StringEscape.Plain(key) && forall k :: 0 <= k < |rows| ==> WellFormed(rows[k])
    ensures ReadsAs(Field(key, DArr(rows)), Member(key, JArr(Meanings(rows))))
  {
    hide Meanings;
    ArrayMeaning(rows);
    PlainField(key, DArr(rows));
  }

  lemma {:induction false} ObjectMeaning(d: Doc, m: seq<Member>)
    requires d.DObj? && |m| == |d.fields|
    requires forall k :: 0 <= k < |m| ==> ReadsAs(d.fields[k], m[k])
    ensures WellFormed(d) && Meaning(d) == JObj(m)
  {
    hide WellFormedField, FieldMeaning;
    forall k | 0 <= k < |m|
      ensures WellFormedField(d.fields[k]) && FieldMeaning(d.fields[k]) == m[k]
    {
      assert ReadsAs(d.fields[k], m[k]);
    }
    assert FieldMeanings(d.fields) == m;
  }

  function IeeeText(ieee: U64): string {
    "0x" + Hex(ieee, 16, true)
  }

  lemma IeeePlain(ieee: U64)
    ensures StringEscape.Plain(IeeeText(ieee))
  {
    hide Hex;
    HexRoundTrip(ieee, 16, true);
    var t := IeeeText(ieee);
    assert forall k :: 0 <= k < |t| ==> DigitValue(t[k]) >= 0 || t[k] == 'x';
  }

  lemma IeeeMeaning(key: string, ieee: U64)
    requires StringEscape.Plain(key)
    ensures var f := Field(key, DStr(IeeeText(ieee)));
            WellFormedField(f) && FieldMeaning(f) == Member(key, JStr(IeeeText(ieee)))
  {
    hide IeeeText;
    IeeePlain(ieee);
    StringEscape.UnescapePlain(IeeeText(ieee));
    PlainField(key, DStr(IeeeText(ieee)));
  }

  lemma IeeeReadsAs(key: string, ieee: U64)
    requires StringEscape.Plain(key)
    ensures ReadsAs(Field(key, DStr(IeeeText(ieee))), Member(key, JStr(IeeeText(ieee))))
  {
    hide IeeeText;
    IeeeMeaning(key, ieee);
  }

  /** "0x" and sixteen upper-case digits. */
  lemma IeeeTextForm(ieee: U64)
    ensures |IeeeText(ieee)| == 18 && IeeeText(ieee)[..2] == "0x"
    ensures forall k :: 2 <= k < 18 ==> IeeeText(ieee)[k] in "0123456789ABCDEF"
  {
    hide Hex;
    CursorRoundTrip(ieee, true);
    HexAlphabet(ieee, 16, true);
    assert forall k :: 2 <= k < 18 ==> IeeeText(ieee)[k] == Hex(ieee, 16, true)[k - 2];
  }

  /** The value of the first member with this key. */
  function Lookup(members: seq<Member>, key: string): Option<Json> {
    if members == [] then None
    else if members[0].key == key then Some(members[0].value)
    else Lookup(members[1..], key)
  }

  function Get(j: Json, key: string): Option<Json> {
    if j.JObj? then Lookup(j.members, key) else None
  }

  /** A member is found by its key when no earlier one has it. */
  lemma {:induction false} LookupAt(members: seq<Member>, k: nat)
    requires k < |members| && forall i :: 0 <= i < k ==> members[i].key != members[k].key
    ensures Lookup(members, members[k].key) == Some(members[k].value)
  {
    if k > 0 {
      assert members[1..][k - 1] == members[k];
      forall i | 0 <= i < k - 1
        ensures members[1..][i].key != members[k].key
      {
        assert members[1..][i] == members[i + 1];
      }
      LookupAt(members[1..], k - 1);
    }
  }
}
