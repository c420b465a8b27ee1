// Which replies are valid UTF-8: a group always, whatever bytes its name holds; a
// page or list of devices exactly when every field it shows is, and so whenever
// the strings behind them are.
module ReplyUtf8 {
  import opened Bytes
  import opened JsonText
  import opened JsonFields
  import opened JsonUtf8
  import opened Utf8
  import opened DevicePages
  import D = DeviceRow
  import E = ListEscape
  import S = StringEscape
  import J = GroupJson
  import G = GroupStore

  // ---- Groups --------------------------------------------------------------

  lemma MemberClean(m: G.Member)
    ensures Clean(J.MemberDoc(m))
  {
    hide Valid, IeeeText;
    IeeeValid(m.ieee);
    AsciiKey("ieee", DStr(IeeeText(m.ieee)));
    AsciiKey("ep", DInt(m.ep));
  }

  /** No stored name, however broken, puts invalid UTF-8 into a text frame. */
  lemma GroupTextValid(r: G.Record)
    ensures Valid(Render(J.GroupDoc(r)))
  {
    hide Valid, CleanField, Render, CStr, S.Escaped, J.MemberDoc, J.Shown;
    var d := J.GroupDoc(r);
    S.EscapedDecodes(CStr(r.name));
    forall m: G.Member
      ensures Clean(J.MemberDoc(m))
    {
      MemberClean(m);
    }
    assert Clean(DArr(J.MemberDocs(J.Shown(r))));
    AsciiKey("id", DInt(r.id));
    AsciiKey("name", DStr(S.Escaped(CStr(r.name))));
    AsciiKey("members", DArr(J.MemberDocs(J.Shown(r))));
    RenderValid(d);
  }

  // ---- Devices -------------------------------------------------------------

  /** Every field the row shows is valid UTF-8. */
  predicate ShowsValid(r: D.Row) {
    && Valid(D.Shown(r.friendly)) && Valid(D.Shown(r.model)) && Valid(D.Shown(r.manufacturer))
    && Valid(D.Shown(r.vendor)) && Valid(D.Shown(r.modelId))
  }

  /** Every string behind the row is valid UTF-8. */
  predicate HoldsValid(r: D.Row) {
    && Valid(E.Text(r.friendly)) && Valid(E.Text(r.model)) && Valid(E.Text(r.manufacturer))
    && Valid(E.Text(r.vendor)) && Valid(E.Text(r.modelId))
  }

  lemma HeldIsShown(r: D.Row)
    requires HoldsValid(r)
    ensures ShowsValid(r)
  {
    hide Valid, E.Text, E.EscapeInto;
    E.EscapeIntoValid(E.Text(r.friendly), 0, D.FIELD_CAP);
    E.EscapeIntoValid(E.Text(r.model), 0, D.FIELD_CAP);
    E.EscapeIntoValid(E.Text(r.manufacturer), 0, D.FIELD_CAP);
    E.EscapeIntoValid(E.Text(r.vendor), 0, D.FIELD_CAP);
    E.EscapeIntoValid(E.Text(r.modelId), 0, D.FIELD_CAP);
  }

  lemma StringsClean(r: D.Row)
    ensures (
      && CleanField(Field("friendly", DStr(D.Shown(r.friendly))))
      && CleanField(Field("name", DStr(D.Shown(r.friendly))))
      && CleanField(Field("model", DStr(D.Shown(r.model)))) && CleanField(Field("vendor", DStr(D.Shown(r.vendor))))
      && CleanField(Field("manufacturer", DStr(D.Shown(r.manufacturer))))
      && CleanField(Field("model_id", DStr(D.Shown(r.modelId))))) <==> ShowsValid(r)
  {
    hide Valid, CleanField, D.Shown;
    AsciiKey("friendly", DStr(D.Shown(r.friendly)));
    AsciiKey("name", DStr(D.Shown(r.friendly)));
    AsciiKey("model", DStr(D.Shown(r.model)));
    AsciiKey("manufacturer", DStr(D.Shown(r.manufacturer)));
    AsciiKey("vendor", DStr(D.Shown(r.vendor)));
    AsciiKey("model_id", DStr(D.Shown(r.modelId)));
  }

  lemma NumbersClean(r: D.Row)
    ensures CleanField(Field("ieee", DStr(IeeeText(r.ieee)))) && CleanField(Field("nwk", DInt(r.nwk)))
    ensures CleanField(Field("known", DBool(r.known))) && CleanField(Field("last_seen", DInt(r.lastSeen)))
    ensures CleanField(Field("lqi", DInt(r.lqi))) && CleanField(Field("battery", DInt(r.battery)))
    ensures CleanField(Field("ep_count", DInt(r.epCount)))
  {
    hide Valid, CleanField, IeeeText;
    IeeeValid(r.ieee);
    AsciiKey("ieee", DStr(IeeeText(r.ieee)));
    AsciiKey("nwk", DInt(r.nwk));
    AsciiKey("known", DBool(r.known));
    AsciiKey("last_seen", DInt(r.lastSeen));
    AsciiKey("lqi", DInt(r.lqi));
    AsciiKey("battery", DInt(r.battery));
    AsciiKey("ep_count", DInt(r.epCount));
  }

  lemma RowClean(r: D.Row)
    ensures Clean(D.RowDoc(r)) <==> ShowsValid(r)
  {
    hide Clean, CleanField, ShowsValid, IeeeText, D.Shown;
    StringsClean(r);
    NumbersClean(r);
    FieldsOfRow(D.RowDoc(r).fields);
    assert D.RowDoc(r) == DObj(D.RowDoc(r).fields);
  }

  lemma FieldsOfRow(f: seq<Field>)
    requires |f| == 13
    ensures Clean(DObj(f)) <==>
            CleanField(f[0]) && CleanField(f[1]) && CleanField(f[2]) && CleanField(f[3]) && CleanField(f[4])
            && CleanField(f[5]) && CleanField(f[6]) && CleanField(f[7]) && CleanField(f[8]) && CleanField(f[9])
            && CleanField(f[10]) && CleanField(f[11]) && CleanField(f[12])
  {
    hide CleanField;
  }

  /** The devices listed show valid text only. */
  predicate AllShowValid(pool: Pool, labels: Labels, slots: seq<nat>)
    requires InPool(pool, slots)
  {
    forall k :: 0 <= k < |slots| ==> ShowsValid(RowOf(labels, pool[slots[k]]))
  }

  lemma RowsClean(pool: Pool, labels: Labels, slots: seq<nat>)
    requires InPool(pool, slots)
    ensures Clean(DArr(RowDocs(pool, labels, slots))) <==> AllShowValid(pool, labels, slots)
  {
    hide D.RowDoc, RowOf, ShowsValid;
    forall r: D.Row
      ensures Clean(D.RowDoc(r)) <==> ShowsValid(r)
    {
      RowClean(r);
    }
    var docs := RowDocs(pool, labels, slots);
    assert forall k :: 0 <= k < |slots| ==> docs[k] == D.RowDoc(RowOf(labels, pool[slots[k]]));
  }

  /** A page is a valid text frame exactly when every field it shows is valid. */
  lemma PageTextValid(pool: Pool, labels: Labels, id: U32, after: U64)
    ensures Valid(PageText(pool, labels, id, after)) <==>
            AllShowValid(pool, labels, PageAfter(pool, labels, id, after).slots)
  {
    hide Valid, CleanField, Render, IeeeText, RowDocs, AllShowValid, PageAfter;
    var page := PageAfter(pool, labels, id, after);
    var rows, cursor := RowDocs(pool, labels, page.slots), CursorOf(page);
    RowsClean(pool, labels, page.slots);
    DataClean(rows, cursor);
    var data := DObj([Field("items", DArr(rows))] + CursorField(cursor));
    EnvelopeClean(id, data);
    RenderValid(PageDoc(id, rows, cursor));
  }

  lemma DataClean(rows: seq<Doc>, cursor: Option<U64>)
    ensures Clean(DObj([Field("items", DArr(rows))] + CursorField(cursor))) <==> Clean(DArr(rows))
  {
    hide Valid, CleanField, IeeeText;
    var f := [Field("items", DArr(rows))] + CursorField(cursor);
    AsciiKey("items", DArr(rows));
    assert f[0] == Field("items", DArr(rows));
    if cursor.Some? {
      IeeeValid(cursor.value);
      AsciiKey("next_cursor", DStr(IeeeText(cursor.value)));
    }
  }

  lemma {:induction false} EnvelopeClean(id: U32, data: Doc)
    ensures Clean(DObj([Field("id", DInt(id)), Field("ok", DBool(true)), Field("data", data)])) <==> Clean(data)
  {
    hide Valid, CleanField;
    AsciiKey("id", DInt(id));
    AsciiKey("ok", DBool(true));
    AsciiKey("data", data);
    var f := [Field("id", DInt(id)), Field("ok", DBool(true)), Field("data", data)];
    assert f[2] == Field("data", data);
  }

  /** The same of the local list. */
  lemma ListTextValid(pool: Pool, labels: Labels, id: U32, slots: seq<nat>)
    requires InPool(pool, slots)
    ensures Valid(Render(ListDoc(id, RowDocs(pool, labels, slots)))) <==> AllShowValid(pool, labels, slots)
  {
    hide Valid, CleanField, Render, RowDocs, AllShowValid;
    var rows := RowDocs(pool, labels, slots);
    RowsClean(pool, labels, slots);
    EnvelopeClean(id, DArr(rows));
    RenderValid(ListDoc(id, rows));
  }

  /** Devices whose names and labels are valid UTF-8 give valid pages and lists,
      however their fields are cut. */
  lemma ValidStringsSuffice(pool: Pool, labels: Labels, id: U32, after: U64, slots: seq<nat>)
    requires InPool(pool, slots)
    requires forall k :: 0 <= k < |pool| ==>
               var d := pool[k]; var (vendor, model) := labels(d.modelId, d.manufacturer);
               && Valid(CStr(d.friendly)) && Valid(CStr(d.modelId)) && Valid(CStr(d.manufacturer))
               && Valid(CStr(vendor)) && Valid(CStr(model))
    ensures Valid(PageText(pool, labels, id, after))
    ensures Valid(Render(ListDoc(id, RowDocs(pool, labels, slots))))
  {
    hide Valid, Render, RowDocs, PageText, PageAfter, HoldsValid, ShowsValid, RowOf;
    forall k | 0 <= k < |pool|
      ensures ShowsValid(RowOf(labels, pool[k]))
    {
      DeviceHoldsValid(labels, pool[k]);
      HeldIsShown(RowOf(labels, pool[k]));
    }
    PageTextValid(pool, labels, id, after);
    ListTextValid(pool, labels, id, slots);
  }

  lemma DeviceHoldsValid(labels: Labels, d: Device)
    requires var (vendor, model) := labels(d.modelId, d.manufacturer);
             && Valid(CStr(d.friendly)) && Valid(CStr(d.modelId)) && Valid(CStr(d.manufacturer))
             && Valid(CStr(vendor)) && Valid(CStr(model))
    ensures HoldsValid(RowOf(labels, d))
  {
    hide Valid, CStr;
  }
}
