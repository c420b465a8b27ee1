// What a client reads of a device in either device.list reply, in terms of the
// device and its two labels alone.
module DeviceReplies {
  import opened Bytes
  import opened JsonText
  import opened JsonFields
  import opened ListEscape
  import opened DeviceRow
  import opened DevicePages
  import opened PageWalk

  /** The part of a string that its 64-byte field holds once escaped. */
  function Kept(s: string): string {
    s[..EscapeInto(s, 0, 64).used]
  }

  predicate Says(j: Json, key: string, v: Json) {
    Get(j, key) == Some(v)
  }

  /** A row as the dashboard contract wants it: labels where there are any, the
      device's own strings otherwise. */
  predicate ShowsDevice(j: Json, labels: Labels, d: Device) {
    var (vendor, model) := labels(d.modelId, d.manufacturer);
    && Says(j, "ieee", JStr(IeeeText(d.ieee)))
    && Says(j, "nwk", JInt(d.nwk))
    && Says(j, "friendly", JStr(Kept(CStr(d.friendly))))
    && Says(j, "name", JStr(Kept(CStr(d.friendly))))
    && Says(j, "model", JStr(Kept(if CStr(model) != [] then CStr(model) else CStr(d.modelId))))
    && Says(j, "manufacturer", JStr(Kept(CStr(d.manufacturer))))
    && Says(j, "vendor", JStr(Kept(if CStr(vendor) != [] then CStr(vendor) else CStr(d.manufacturer))))
    && Says(j, "model_id", JStr(Kept(CStr(d.modelId))))
    && Says(j, "known", JBool(CStr(model) != []))
    && Says(j, "last_seen", JInt(d.lastSeen))
    && Says(j, "lqi", JInt(d.lqi))
    && Says(j, "battery", JInt(d.battery))
    && Says(j, "ep_count", JInt(d.epCount))
  }

  /** The members of a row, in its order. */
  lemma FirstMembers(r: Row)
    ensures var j := RowValue(r);
            && Says(j, "ieee", JStr(IeeeText(r.ieee))) && Says(j, "nwk", JInt(r.nwk))
            && Says(j, "friendly", JStr(Carried(r.friendly))) && Says(j, "name", JStr(Carried(r.friendly)))
            && Says(j, "model", JStr(Carried(r.model)))
  {
    hide Lookup, Carried, IeeeText;
    var m := RowValue(r).members;
    LookupAt(m, 0);
    LookupAt(m, 1);
    LookupAt(m, 2);
    LookupAt(m, 3);
    LookupAt(m, 4);
  }

  lemma MiddleMembers(r: Row)
    ensures var j := RowValue(r);
            && Says(j, "manufacturer", JStr(Carried(r.manufacturer))) && Says(j, "vendor", JStr(Carried(r.vendor)))
            && Says(j, "model_id", JStr(Carried(r.modelId))) && Says(j, "known", JBool(r.known))
  {
    hide Lookup, Carried, IeeeText;
    var m := RowValue(r).members;
    LookupAt(m, 5);
    LookupAt(m, 6);
    LookupAt(m, 7);
    LookupAt(m, 8);
  }

  lemma LastMembers(r: Row)
    ensures var j := RowValue(r);
            && Says(j, "last_seen", JInt(r.lastSeen)) && Says(j, "lqi", JInt(r.lqi))
            && Says(j, "battery", JInt(r.battery)) && Says(j, "ep_count", JInt(r.epCount))
  {
    hide Lookup, Carried, IeeeText;
    var m := RowValue(r).members;
    LookupAt(m, 9);
    LookupAt(m, 10);
    LookupAt(m, 11);
    LookupAt(m, 12);
  }

  lemma RowShowsDevice(labels: Labels, d: Device)
    ensures ShowsDevice(RowValue(RowOf(labels, d)), labels, d)
  {
    hide RowValue, Says, EscapeInto, IeeeText;
    FirstMembers(RowOf(labels, d));
    MiddleMembers(RowOf(labels, d));
    LastMembers(RowOf(labels, d));
  }

  lemma {:induction false} RowsShowDevices(pool: Pool, labels: Labels, slots: seq<nat>)
    requires InPool(pool, slots)
    ensures forall k :: 0 <= k < |slots| ==> WellFormed(RowDocs(pool, labels, slots)[k])
    ensures var rows := Meanings(RowDocs(pool, labels, slots));
            forall k :: 0 <= k < |slots| ==> ShowsDevice(rows[k], labels, pool[slots[k]])
  {
    hide RowOf, RowDoc, RowValue, ShowsDevice, WellFormed, Meaning;
    RowsRead(pool, labels, slots);
    var docs := RowDocs(pool, labels, slots);
    forall k | 0 <= k < |slots|
      ensures ShowsDevice(Meanings(docs)[k], labels, pool[slots[k]])
    {
      var r := RowOf(labels, pool[slots[k]]);
      RowMeaning(r);
      assert docs[k] == RowDoc(r) && Meanings(docs)[k] == Meaning(docs[k]);
      RowShowsDevice(labels, pool[slots[k]]);
    }
  }

  /** Every reply to a page request parses to the request's id, ok, and one row for
      each device of the page that shows that device. */
  lemma {:induction false} PageShowsDevices(pool: Pool, labels: Labels, id: U32, after: U64) returns (rows: seq<Json>)
    ensures var slots, reply := PageAfter(pool, labels, id, after).slots, Parse(PageText(pool, labels, id, after));
            && reply.Some? && Says(reply.value, "id", JInt(id)) && Says(reply.value, "ok", JBool(true))
            && var data := Get(reply.value, "data");
               && data.Some? && Says(data.value, "items", JArr(rows))
               && |rows| == |slots|
               && forall k :: 0 <= k < |rows| ==> ShowsDevice(rows[k], labels, pool[slots[k]])
  {
    hide PageAfter, RowDocs, PageDoc, DataValue, Lookup, Render, Meaning, Meanings, WellFormed, ParseValue, ShowsDevice;
    var p := PageAfter(pool, labels, id, after);
    var docs := RowDocs(pool, labels, p.slots);
    RowsShowDevices(pool, labels, p.slots);
    ReplyReads(id, docs, CursorOf(p));
    ParseDocument(PageDoc(id, docs, CursorOf(p)));
    rows := Meanings(docs);
    LookupData(id, rows, CursorOf(p));
    Envelope(id, DataValue(rows, CursorOf(p)));
  }

  lemma Envelope(id: U32, data: Json)
    ensures var j := JObj([Member("id", JInt(id)), Member("ok", JBool(true)), Member("data", data)]);
            Says(j, "id", JInt(id)) && Says(j, "ok", JBool(true)) && Says(j, "data", data)
  {
    hide Lookup;
    var m := [Member("id", JInt(id)), Member("ok", JBool(true)), Member("data", data)];
    LookupAt(m, 0);
    LookupAt(m, 1);
    LookupAt(m, 2);
  }

  /** The same of the local list. */
  lemma {:induction false} ListShowsDevices(pool: Pool, labels: Labels, id: U32, slots: seq<nat>)
    returns (rows: seq<Json>)
    requires InPool(pool, slots)
    ensures var reply := Parse(Render(ListDoc(id, RowDocs(pool, labels, slots))));
            && reply.Some? && Says(reply.value, "id", JInt(id)) && Says(reply.value, "ok", JBool(true))
            && Says(reply.value, "data", JArr(rows)) && |rows| == |slots|
            && forall k :: 0 <= k < |rows| ==> ShowsDevice(rows[k], labels, pool[slots[k]])
  {
    hide RowDocs, ListDoc, Lookup, Render, Meaning, Meanings, WellFormed, ParseValue, ShowsDevice;
    RowsShowDevices(pool, labels, slots);
    ListMeaning(id, RowDocs(pool, labels, slots));
    rows := Meanings(RowDocs(pool, labels, slots));
    ParseDocument(ListDoc(id, RowDocs(pool, labels, slots)));
    Envelope(id, JArr(rows));
  }

  lemma {:induction false} ListMeaning(id: U32, docs: seq<Doc>)
    requires forall k :: 0 <= k < |docs| ==> WellFormed(docs[k])
    ensures WellFormed(ListDoc(id, docs))
    ensures Meaning(ListDoc(id, docs)) ==
            JObj([Member("id", JInt(id)), Member("ok", JBool(true)), Member("data", JArr(Meanings(docs)))])
  {
    hide WellFormed, Meaning, Meanings, ReadsAs;
    IntReadsAs("id", id);
    BoolReadsAs("ok", true);
    ArrayReadsAs("data", docs);
    ObjectMeaning(ListDoc(id, docs),
                  [Member("id", JInt(id)), Member("ok", JBool(true)), Member("data", JArr(Meanings(docs)))]);
  }
}
