// The row encoder of main/devlist_page.h: the row as text and as a JSON object,
// what a client reads of it, and its size.
module DeviceRow {
  import opened Bytes
  import opened Numbers
  import opened JsonText
  import opened JsonFields
  import opened ListEscape
  import StringEscape

  const FIELD_CAP: nat := 64
  const ROW_CAP: nat := 640
  const ROW_MAX: nat := 612

  /** One device.list row; the strings are raw C strings. */
  datatype Row = Row(
    ieee: U64, nwk: U32, friendly: Option<CString>, model: Option<CString>,
    manufacturer: Option<CString>, vendor: Option<CString>, modelId: Option<CString>,
    known: bool, lastSeen: I64, lqi: U32, battery: I32, epCount: U32)

  /** What a field of a row shows of its string. */
  function Shown(p: Option<CString>): string {
    EscapeInto(Text(p), 0, FIELD_CAP).text
  }

  /** A row as a JSON object. */
  function RowDoc(r: Row): Doc {
    DObj([
      Field("ieee", DStr(IeeeText(r.ieee))), Field("nwk", DInt(r.nwk)),
      Field("friendly", DStr(Shown(r.friendly))), Field("name", DStr(Shown(r.friendly))),
      Field("model", DStr(Shown(r.model))), Field("manufacturer", DStr(Shown(r.manufacturer))),
      Field("vendor", DStr(Shown(r.vendor))), Field("model_id", DStr(Shown(r.modelId))),
      Field("known", DBool(r.known)), Field("last_seen", DInt(r.lastSeen)),
      Field("lqi", DInt(r.lqi)), Field("battery", DInt(r.battery)), Field("ep_count", DInt(r.epCount))])
  }

  /** The expansion of the row format, one member to a line. */
  function Format(first: bool, ieee: U64, nwk: U32, fr: string, mo: string, mf: string, ve: string, mi: string,
                  known: bool, lastSeen: I64, lqi: U32, battery: I32, epCount: U32): string
  {
    (if first then "" else ",") + ("{" +
    ("\"ieee\":\"0x" + Hex(ieee, 16, true) + "\"," +
    ("\"nwk\":" + Dec(nwk) + "," +
    ("\"friendly\":\"" + fr + "\"," +
    ("\"name\":\"" + fr + "\"," +
    ("\"model\":\"" + mo + "\"," +
    ("\"manufacturer\":\"" + mf + "\"," +
    ("\"vendor\":\"" + ve + "\"," +
    ("\"model_id\":\"" + mi + "\"," +
    ("\"known\":" + (if known then "true" else "false") + "," +
    ("\"last_seen\":" + Signed(lastSeen) + "," +
    ("\"lqi\":" + Dec(lqi) + "," +
    ("\"battery\":" + Signed(battery) + "," +
    ("\"ep_count\":" + Dec(epCount)))))))))))))) + "}")
  }

  function RowText(r: Row, first: bool): string {
    Format(first, r.ieee, r.nwk, Shown(r.friendly), Shown(r.model), Shown(r.manufacturer), Shown(r.vendor),
           Shown(r.modelId), r.known, r.lastSeen, r.lqi, r.battery, r.epCount)
  }

  /** The text of one member and the comma behind it. */
  function Item(f: Field): string {
    RenderField(f) + ","
  }

  lemma FieldsStep(fields: seq<Field>, k: nat)
    requires k + 1 < |fields|
    ensures RenderFields(fields[k..]) == Item(fields[k]) + RenderFields(fields[k + 1..])
  {
    assert fields[k..][1..] == fields[k + 1..];
  }

  lemma StringItem(key: string, esc: string)
    ensures Item(Field(key, DStr(esc))) == "\"" + key + "\":\"" + esc + "\","
  {
    var k := "\"" + key;
    assert Render(DStr(esc)) == Quoted(esc);
    calc {
      Item(Field(key, DStr(esc)));
      Quoted(key) + ":" + Quoted(esc) + ",";
      { assert Quoted(key) + ":" == k + "\":"; }
      k + "\":" + ("\"" + esc + "\"") + ",";
      { assert k + "\":" + ("\"" + esc + "\"") == k + "\":\"" + esc + "\""; }
      k + "\":\"" + esc + "\"" + ",";
      { assert k + "\":\"" + esc + "\"" + "," == k + "\":\"" + esc + "\","; }
      k + "\":\"" + esc + "\",";
    }
  }

  lemma {:induction false} ValueItem(key: string, d: Doc)
    ensures Item(Field(key, d)) == "\"" + key + "\":" + Render(d) + ","
  {
    assert Quoted(key) + ":" == "\"" + key + "\":";
  }

  lemma {:induction false} IeeeItem(ieee: U64)
    ensures Item(Field("ieee", DStr(IeeeText(ieee)))) == "\"ieee\":\"0x" + Hex(ieee, 16, true) + "\","
  {
    hide Hex;
    StringItem("ieee", IeeeText(ieee));
    assert "\"" + "ieee" + "\":\"" + ("0x" + Hex(ieee, 16, true)) == "\"ieee\":\"0x" + Hex(ieee, 16, true);
  }

  lemma StringItems(r: Row)
    ensures Item(Field("friendly", DStr(Shown(r.friendly)))) == "\"friendly\":\"" + Shown(r.friendly) + "\","
    ensures Item(Field("name", DStr(Shown(r.friendly)))) == "\"name\":\"" + Shown(r.friendly) + "\","
    ensures Item(Field("model", DStr(Shown(r.model)))) == "\"model\":\"" + Shown(r.model) + "\","
    ensures Item(Field("manufacturer", DStr(Shown(r.manufacturer)))) ==
            "\"manufacturer\":\"" + Shown(r.manufacturer) + "\","
    ensures Item(Field("vendor", DStr(Shown(r.vendor)))) == "\"vendor\":\"" + Shown(r.vendor) + "\","
    ensures Item(Field("model_id", DStr(Shown(r.modelId)))) == "\"model_id\":\"" + Shown(r.modelId) + "\","
  {
    hide Shown, Item;
    StringItem("friendly", Shown(r.friendly));
    assert "\"" + "friendly" + "\":\"" == "\"friendly\":\"";
    StringItem("name", Shown(r.friendly));
    assert "\"" + "name" + "\":\"" == "\"name\":\"";
    StringItem("model", Shown(r.model));
    assert "\"" + "model" + "\":\"" == "\"model\":\"";
    StringItem("manufacturer", Shown(r.manufacturer));
    assert "\"" + "manufacturer" + "\":\"" == "\"manufacturer\":\"";
    StringItem("vendor", Shown(r.vendor));
    assert "\"" + "vendor" + "\":\"" == "\"vendor\":\"";
    StringItem("model_id", Shown(r.modelId));
    assert "\"" + "model_id" + "\":\"" == "\"model_id\":\"";
  }

  lemma NumberItems(r: Row)
    ensures Item(Field("nwk", DInt(r.nwk))) == "\"nwk\":" + Dec(r.nwk) + ","
    ensures Item(Field("known", DBool(r.known))) == "\"known\":" + (if r.known then "true" else "false") + ","
    ensures Item(Field("last_seen", DInt(r.lastSeen))) == "\"last_seen\":" + Signed(r.lastSeen) + ","
    ensures Item(Field("lqi", DInt(r.lqi))) == "\"lqi\":" + Dec(r.lqi) + ","
    ensures Item(Field("battery", DInt(r.battery))) == "\"battery\":" + Signed(r.battery) + ","
    ensures RenderField(Field("ep_count", DInt(r.epCount))) == "\"ep_count\":" + Dec(r.epCount)
  {
    hide Dec, Item;
    ValueItem("nwk", DInt(r.nwk));
    assert "\"" + "nwk" + "\":" == "\"nwk\":";
    ValueItem("known", DBool(r.known));
    assert "\"" + "known" + "\":" == "\"known\":";
    ValueItem("last_seen", DInt(r.lastSeen));
    assert "\"" + "last_seen" + "\":" == "\"last_seen\":";
    ValueItem("lqi", DInt(r.lqi));
    assert "\"" + "lqi" + "\":" == "\"lqi\":";
    ValueItem("battery", DInt(r.battery));
    assert "\"" + "battery" + "\":" == "\"battery\":";
    assert Quoted("ep_count") + ":" == "\"ep_count\":";
  }

  lemma SixFields(f: seq<Field>, k: nat)
    requires k + 6 < |f|
    ensures RenderFields(f[k..]) ==
            Item(f[k]) + (Item(f[k + 1]) + (Item(f[k + 2]) + (Item(f[k + 3]) + (Item(f[k + 4]) + (
            Item(f[k + 5]) + RenderFields(f[k + 6..]))))))
  {
    hide RenderFields, Item;
    FieldsStep(f, k); FieldsStep(f, k + 1); FieldsStep(f, k + 2);
    FieldsStep(f, k + 3); FieldsStep(f, k + 4); FieldsStep(f, k + 5);
  }

  /** The members of an object with thirteen of them. */
  lemma {:induction false} ThirteenFields(f: seq<Field>)
    requires |f| == 13
    ensures RenderFields(f) ==
            Item(f[0]) + (Item(f[1]) + (Item(f[2]) + (Item(f[3]) + (Item(f[4]) + (Item(f[5]) + (Item(f[6]) + (
            Item(f[7]) + (Item(f[8]) + (Item(f[9]) + (Item(f[10]) + (Item(f[11]) + RenderField(f[12]))))))))))))
  {
    hide RenderFields, Item, RenderField;
    SixFields(f, 0);
    SixFields(f, 6);
    LastItem(f[12]);
    assert f[12..] == [f[12]] && f[0..] == f;
  }

  /** The format prints the row as a JSON object. */
  lemma FormatIsDoc(r: Row, first: bool)
    ensures RowText(r, first) == Comma(first) + Render(RowDoc(r))
  {
    hide Hex, Dec, Signed, Shown, RenderFields, Item, RenderField, RowText;
    var f := RowDoc(r).fields;
    ThirteenFields(f);
    FormatIsItems(r, first, f);
  }

  lemma FormatIsItems(r: Row, first: bool, f: seq<Field>)
    requires f == RowDoc(r).fields
    ensures RowText(r, first) == Comma(first) + ("{" + (
            Item(f[0]) + (Item(f[1]) + (Item(f[2]) + (Item(f[3]) + (Item(f[4]) + (Item(f[5]) + (Item(f[6]) + (
            Item(f[7]) + (Item(f[8]) + (Item(f[9]) + (Item(f[10]) + (Item(f[11]) + RenderField(f[12]))))))))))))) + "}")
  {
    hide Hex, Dec, Signed, Shown, Item, RenderField;
    IeeeItem(r.ieee);
    StringItems(r);
    NumberItems(r);
  }

  lemma {:induction false} LastItem(f: Field)
    ensures RenderFields([f]) == RenderField(f)
  {
  }

  // ---- What a client reads back -------------------------------------------

  /** The part of a string that a row carries. */
  function Carried(p: Option<CString>): string {
    Text(p)[..EscapeInto(Text(p), 0, FIELD_CAP).used]
  }

  /** A string is carried whole exactly when its escaped text and the NUL fit the
      64 bytes of its field. */
  lemma CarriedWhole(p: Option<CString>)
    ensures Carried(p) == Text(p) <==> EscLen(Text(p)) < FIELD_CAP
  {
    hide EscapeInto, EscLen;
    var s := Text(p);
    WholeIsBoundary(s);
    BoundaryTaken(s, 0, FIELD_CAP, |s|);
    assert s[..|s|] == s;
  }

  /** Plain names of up to 63 bytes always fit. */
  lemma PlainCarriedWhole(p: Option<CString>)
    requires StringEscape.Plain(Text(p)) && |Text(p)| < FIELD_CAP
    ensures Carried(p) == Text(p)
  {
    hide Carried;
    PlainEscLen(Text(p));
    CarriedWhole(p);
  }

  lemma {:induction false} PlainEscLen(s: string)
    requires StringEscape.Plain(s)
    ensures EscLen(s) == |s|
  {
    if s != [] { PlainEscLen(s[1..]); }
  }

  /** The row as a client decodes it. */
  function RowValue(r: Row): Json {
    JObj([
      Member("ieee", JStr(IeeeText(r.ieee))), Member("nwk", JInt(r.nwk)),
      Member("friendly", JStr(Carried(r.friendly))), Member("name", JStr(Carried(r.friendly))),
      Member("model", JStr(Carried(r.model))), Member("manufacturer", JStr(Carried(r.manufacturer))),
      Member("vendor", JStr(Carried(r.vendor))), Member("model_id", JStr(Carried(r.modelId))),
      Member("known", JBool(r.known)), Member("last_seen", JInt(r.lastSeen)),
      Member("lqi", JInt(r.lqi)), Member("battery", JInt(r.battery)), Member("ep_count", JInt(r.epCount))])
  }

  lemma ShownMeaning(key: string, p: Option<CString>)
    requires StringEscape.Plain(key)
    ensures var f := Field(key, DStr(Shown(p)));
            WellFormedField(f) && FieldMeaning(f) == Member(key, JStr(Carried(p)))
  {
    hide EscapeInto, Unescape;
    EscapeIntoDecodes(Text(p), 0, FIELD_CAP);
    PlainField(key, DStr(Shown(p)));
  }

  lemma TextReadsAs(key: string, p: Option<CString>)
    requires StringEscape.Plain(key)
    ensures ReadsAs(Field(key, DStr(Shown(p))), Member(key, JStr(Carried(p))))
  {
    hide Shown, Carried;
    ShownMeaning(key, p);
  }

  /** A row is well-formed JSON that carries every number exactly and of every
      string the part that fits. */
  lemma RowMeaning(r: Row)
    ensures WellFormed(RowDoc(r))
    ensures Meaning(RowDoc(r)) == RowValue(r)
  {
    hide IeeeText, Shown, Carried, WellFormed, Meaning, ReadsAs;
    IeeeReadsAs("ieee", r.ieee);
    IntReadsAs("nwk", r.nwk);
    TextReadsAs("friendly", r.friendly);
    TextReadsAs("name", r.friendly);
    TextReadsAs("model", r.model);
    TextReadsAs("manufacturer", r.manufacturer);
    TextReadsAs("vendor", r.vendor);
    TextReadsAs("model_id", r.modelId);
    BoolReadsAs("known", r.known);
    IntReadsAs("last_seen", r.lastSeen);
    IntReadsAs("lqi", r.lqi);
    IntReadsAs("battery", r.battery);
    IntReadsAs("ep_count", r.epCount);
    ObjectMeaning(RowDoc(r), RowValue(r).members);
  }

  // ---- Size ----------------------------------------------------------------

  lemma NumberSizes(r: Row)
    ensures |Hex(r.ieee, 16, true)| == 16
    ensures |Dec(r.nwk)| <= 10 && |Dec(r.lqi)| <= 10 && |Dec(r.epCount)| <= 10
    ensures |Signed(r.battery)| <= 11 && |Signed(r.lastSeen)| <= 20
  {
    hide Dec, Hex, Signed;
    CursorRoundTrip(r.ieee, true);
    DecLengths(r.nwk);
    DecLengths(r.lqi);
    DecLengths(r.epCount);
    SignedLengths(r.battery);
    SignedLengths(r.lastSeen);
  }

  lemma SignedLengths(v: int)
    ensures -0x8000_0000 <= v < 0x8000_0000 ==> |Signed(v)| <= 11
    ensures -0x8000_0000_0000_0000 <= v < 0x8000_0000_0000_0000 ==> |Signed(v)| <= 20
  {
    hide Dec;
    DecLengths(if v < 0 then -v else v);
  }

  /** No row is longer than 612 bytes, whatever the strings hold: it always fits
      its 640-byte buffer. */
  lemma RowFits(r: Row, first: bool)
    ensures 0 < |RowText(r, first)| <= ROW_MAX
  {
    hide Hex, Dec, Signed;
    NumberSizes(r);
    FieldSize(r.friendly);
    FieldSize(r.model);
    FieldSize(r.manufacturer);
    FieldSize(r.vendor);
    FieldSize(r.modelId);
  }

  lemma FieldSize(p: Option<CString>)
    ensures |Shown(p)| < FIELD_CAP
  {
  }

  // ---- devlist_row ---------------------------------------------------------

  /** Escapes one field into a buffer of its own and reads it back with %s. */
  method EscapeField(p: Option<CString>) returns (text: string)
    ensures text == Shown(p)
  {
    hide EscapeInto, CStr;
    var field := new char[FIELD_CAP];
    ghost var before := field[..];
    var n := JsonEscape(p, field, FIELD_CAP);
    EscapeIntoDecodes(Text(p), 0, FIELD_CAP);
    assert field[..] == Patch(before, 0, Shown(p) + [NUL]);
    CStrUnique(field[..], n);
    assert field[..][..n] == Shown(p);
    text := CStr(field[..]);
  }

  /** devlist_row: the result is the length of the whole row; the buffer holds
      it when that is below `cap`. */
  method DevlistRow(r: Row, first: bool, row: array<char>, cap: nat) returns (n: nat)
    requires cap <= row.Length
    modifies row
    ensures n == |RowText(r, first)|
    ensures n < cap ==> row[..n] == RowText(r, first)
    ensures row[cap..] == old(row[cap..])
  {
    hide Shown, Format;
    var fr := EscapeField(r.friendly);
    var mo := EscapeField(r.model);
    var mf := EscapeField(r.manufacturer);
    var ve := EscapeField(r.vendor);
    var mi := EscapeField(r.modelId);
    var text := Format(first, r.ieee, r.nwk, fr, mo, mf, ve, mi, r.known, r.lastSeen, r.lqi, r.battery, r.epCount);
    n := Snprintf(row, 0, cap, text);
    if n < cap {
      assert text[..n] == text;
      assert row[..n] == text;
    }
  }
}
