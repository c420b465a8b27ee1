// The two device.list replies of main/ws_bridge.cpp: one bounded page in IEEE
// order after a cursor, and the whole pool in slot order.
module DevicePages {
  import opened Bytes
  import opened Numbers
  import opened JsonText
  import opened JsonFields
  import opened ListEscape
  import opened DeviceRow

  /** A pool slot; a removed device keeps its slot until it is reused. */
  datatype Device = Device(
    ieee: U64, nwk: U32, friendly: CString, modelId: CString, manufacturer: CString,
    lastSeen: I64, lqi: U32, battery: I32, epCount: U32, removed: bool)

  type Pool = seq<Device>

  /** Vendor and model labels of a definition, empty strings when none matches. */
  type Labels = (string, string) -> (CString, CString)

  /** format_device_row: labels first, the device's own strings otherwise. */
  function RowOf(labels: Labels, d: Device): Row {
    var (vendor, model) := labels(d.modelId, d.manufacturer);
    Row(d.ieee, d.nwk, Some(d.friendly), Some(if model[0] != NUL then model else d.modelId),
        Some(d.manufacturer), Some(if vendor[0] != NUL then vendor else d.manufacturer), Some(d.modelId),
        model[0] != NUL, d.lastSeen, d.lqi, d.battery, d.epCount)
  }

  // ---- Page order ----------------------------------------------------------

  /** Slot `k` holds a live device behind the cursor. */
  predicate Candidate(pool: Pool, after: U64, k: int) {
    0 <= k < |pool| && !pool[k].removed && pool[k].ieee > after
  }

  /** `r` is the first slot with the least IEEE behind the cursor, or -1. */
  ghost predicate IsNext(pool: Pool, n: nat, after: U64, r: int)
    requires n <= |pool|
  {
    if r < 0 then r == -1 && forall k :: 0 <= k < n ==> !Candidate(pool, after, k)
    else
      && r < n && Candidate(pool, after, r)
      && forall k :: 0 <= k < n && Candidate(pool, after, k) ==>
           pool[r].ieee < pool[k].ieee || (pool[r].ieee == pool[k].ieee && r <= k)
  }

  /** The slot a page takes next, among the first `n`. */
  function NextAmong(pool: Pool, n: nat, after: U64): (r: int)
    requires n <= |pool|
    ensures IsNext(pool, n, after, r)
  {
    if n == 0 then -1
    else
      var r := NextAmong(pool, n - 1, after);
      if Candidate(pool, after, n - 1) && (r < 0 || pool[n - 1].ieee < pool[r].ieee) then n - 1 else r
  }

  function NextSlot(pool: Pool, after: U64): int {
    NextAmong(pool, |pool|, after)
  }

  /** devlist_next. */
  method DevlistNext(pool: Pool, after: U64) returns (best: int)
    ensures IsNext(pool, |pool|, after, best)
    ensures best == NextSlot(pool, after)
  {
    best := -1;
    var bestIeee := 0;
    for i := 0 to |pool|
      invariant IsNext(pool, i, after, best)
      invariant best >= 0 ==> bestIeee == pool[best].ieee
    {
      if pool[i].removed { continue; }
      var v := pool[i].ieee;
      if v > after && (best < 0 || v < bestIeee) {
        best, bestIeee := i, v;
      }
    }
  }

  // ---- One page ------------------------------------------------------------

  const PAGE_CAP: nat := 8192
  const PAGE_TAIL: nat := 48

  predicate InPool(pool: Pool, slots: seq<nat>) {
    forall k :: 0 <= k < |slots| ==> slots[k] < |pool|
  }

  /** The slots a page sends, the IEEE it ends at, and whether it stopped for
      want of room. */
  datatype Page = Page(slots: seq<nat>, last: U64, more: bool)

  /** The rest of a page when it has reached IEEE `last` and byte `pos`. */
  function PageFrom(pool: Pool, labels: Labels, last: U64, pos: nat, first: bool): (page: Page)
    ensures InPool(pool, page.slots)
    decreases U64_LIMIT - last
  {
    hide RowText;
    var i := NextSlot(pool, last);
    if i < 0 then Page([], last, false)
    else
      var len := |RowText(RowOf(labels, pool[i]), first)|;
      if pos + len + PAGE_TAIL >= PAGE_CAP then Page([], last, true)
      else
        var rest := PageFrom(pool, labels, pool[i].ieee, pos + len, false);
        Page([i] + rest.slots, rest.last, rest.more)
  }

  function Header(id: U32): string {
    "{\"id\":" + Dec(id) + ",\"ok\":true,\"data\":{\"items\":["
  }

  /** The page the handler builds for a cursor. */
  function PageAfter(pool: Pool, labels: Labels, id: U32, after: U64): (page: Page)
    ensures InPool(pool, page.slots)
  {
    PageFrom(pool, labels, after, |Header(id)|, true)
  }

  function RowDocs(pool: Pool, labels: Labels, slots: seq<nat>): (r: seq<Doc>)
    requires InPool(pool, slots)
    ensures |r| == |slots|
  {
    seq(|slots|, k requires 0 <= k < |slots| => RowDoc(RowOf(labels, pool[slots[k]])))
  }

  function CursorField(cursor: Option<U64>): seq<Field> {
    if cursor.Some? then [Field("next_cursor", DStr(IeeeText(cursor.value)))] else []
  }

  /** The reply envelope of a page. */
  function PageDoc(id: U32, rows: seq<Doc>, cursor: Option<U64>): Doc {
    DObj([Field("id", DInt(id)), Field("ok", DBool(true)),
          Field("data", DObj([Field("items", DArr(rows))] + CursorField(cursor)))])
  }

  function Tail(cursor: Option<U64>): string {
    if cursor.Some? then "],\"next_cursor\":\"" + IeeeText(cursor.value) + "\"}}" else "]}}"
  }

  function CursorOf(page: Page): Option<U64> {
    if page.more then Some(page.last) else None
  }

  /** The bytes of the reply to a page request. */
  function PageText(pool: Pool, labels: Labels, id: U32, after: U64): string {
    var page := PageAfter(pool, labels, id, after);
    Render(PageDoc(id, RowDocs(pool, labels, page.slots), CursorOf(page)))
  }

  // ---- Text of a reply -----------------------------------------------------

  /** Appending one row's text appends one element to the array. */
  lemma AppendRow(pool: Pool, labels: Labels, slots: seq<nat>, i: nat, head: string)
    requires InPool(pool, slots)
    requires i < |pool|
    ensures head + RenderItems(RowDocs(pool, labels, slots)) + RowText(RowOf(labels, pool[i]), slots == []) ==
            head + RenderItems(RowDocs(pool, labels, slots + [i]))
  {
    hide RowOf, RowDoc, RowText, Render, RenderItems;
    var docs := RowDocs(pool, labels, slots);
    var d := RowDoc(RowOf(labels, pool[i]));
    assert RowDocs(pool, labels, slots + [i]) == docs + [d];
    FormatIsDoc(RowOf(labels, pool[i]), slots == []);
    RenderItemsAppend(docs, d);
    var a, b, c := RenderItems(docs), Comma(slots == []), Render(d);
    assert head + a + (b + c) == head + (a + b + c);
  }

  lemma {:induction false} ArrayField(key: string, rows: seq<Doc>)
    ensures RenderField(Field(key, DArr(rows))) == "\"" + key + "\":[" + RenderItems(rows) + "]"
  {
    hide RenderItems;
    var x := RenderItems(rows);
    assert Render(DArr(rows)) == "[" + x + "]";
    assert Quoted(key) + ":" + ("[" + x + "]") == "\"" + key + "\":[" + x + "]";
  }

  lemma CursorFieldText(ieee: U64)
    ensures RenderField(Field("next_cursor", DStr(IeeeText(ieee)))) == "\"next_cursor\":\"" + IeeeText(ieee) + "\""
  {
    hide IeeeText;
    var c := IeeeText(ieee);
    assert Render(DStr(c)) == "\"" + c + "\"";
    assert Quoted("next_cursor") + ":" + ("\"" + c + "\"") == "\"next_cursor\":\"" + c + "\"";
  }

  lemma {:induction false} DataOnLastPage(rows: seq<Doc>)
    ensures RenderFields([Field("items", DArr(rows))]) + "}}" == "\"items\":[" + RenderItems(rows) + "]}}"
  {
    hide RenderItems, RenderFields, RenderField;
    var f := Field("items", DArr(rows));
    ArrayField("items", rows);
    assert "\"" + "items" + "\":[" == "\"items\":[";
    TwoFields(f, f);
    assert "\"items\":[" + RenderItems(rows) + "]" + "}}" == "\"items\":[" + RenderItems(rows) + "]}}";
  }

  lemma CursorConcat(head: string, c: string)
    ensures head + "]" + "," + ("\"next_cursor\":\"" + c + "\"") + "}}" == head + ("],\"next_cursor\":\"" + c + "\"}}")
  {
    var n := "\"next_cursor\":\"";
    assert "]" + "," + (n + c + "\"") + "}}" == "]" + "," + n + c + "\"" + "}}";
    assert "]" + "," + n == "],\"next_cursor\":\"" && "\"" + "}}" == "\"}}";
    assert head + "]" + "," + (n + c + "\"") + "}}" == head + ("]" + "," + n + c + "\"" + "}}");
  }

  lemma {:induction false} DataWithCursor(rows: seq<Doc>, ieee: U64)
    ensures RenderFields([Field("items", DArr(rows)), Field("next_cursor", DStr(IeeeText(ieee)))]) + "}}" ==
            "\"items\":[" + RenderItems(rows) + ("],\"next_cursor\":\"" + IeeeText(ieee) + "\"}}")
  {
    hide RenderItems, RenderFields, RenderField, IeeeText;
    var f, g := Field("items", DArr(rows)), Field("next_cursor", DStr(IeeeText(ieee)));
    var c := IeeeText(ieee);
    ArrayField("items", rows);
    assert "\"" + "items" + "\":[" == "\"items\":[";
    CursorFieldText(ieee);
    TwoFields(f, g);
    CursorConcat("\"items\":[" + RenderItems(rows), c);
  }

  /** The data object of a page with the braces that end the reply. */
  lemma {:induction false} DataText(rows: seq<Doc>, cursor: Option<U64>)
    ensures RenderFields([Field("items", DArr(rows))] + CursorField(cursor)) + "}}" ==
            "\"items\":[" + RenderItems(rows) + Tail(cursor)
  {
    hide RenderItems, RenderFields, IeeeText;
    var f := Field("items", DArr(rows));
    if cursor.Some? {
      assert [f] + CursorField(cursor) == [f, Field("next_cursor", DStr(IeeeText(cursor.value)))];
      DataWithCursor(rows, cursor.value);
    } else {
      assert [f] + CursorField(cursor) == [f];
      DataOnLastPage(rows);
    }
  }

  function Opening(id: U32): string {
    "{\"id\":" + Dec(id) + ",\"ok\":true,\"data\":"
  }

  /** The envelope {"id":..,"ok":true,"data":..}. */
  lemma {:induction false} EnvelopeText(id: U32, data: Doc)
    ensures Render(DObj([Field("id", DInt(id)), Field("ok", DBool(true)), Field("data", data)])) ==
            Opening(id) + Render(data) + "}"
  {
    hide Dec, RenderFields;
    var f, g, h := Field("id", DInt(id)), Field("ok", DBool(true)), Field("data", data);
    var d, x := Dec(id), Render(data);
    assert RenderField(f) == "\"id\":" + d;
    assert RenderField(g) == "\"ok\":true";
    assert RenderField(h) == "\"data\":" + x;
    ThreeFields(f, g, h);
    EnvelopeConcat(d, x);
  }

  lemma EnvelopeConcat(d: string, x: string)
    ensures "{" + ("\"id\":" + d + "," + ("\"ok\":true" + "," + ("\"data\":" + x))) + "}" ==
            "{\"id\":" + d + ",\"ok\":true,\"data\":" + x + "}"
  {
    assert "\"ok\":true" + "," + ("\"data\":" + x) == "\"ok\":true,\"data\":" + x;
  }

  lemma PageConcat(o: string, x: string, y: string, t: string)
    requires y + "}}" == "\"items\":[" + x + t
    ensures o + "{\"items\":[" + x + t == o + ("{" + y + "}") + "}"
  {
    calc {
      o + ("{" + y + "}") + "}";
      o + "{" + (y + "}}");
      o + "{" + ("\"items\":[" + x + t);
      { assert "{" + "\"items\":[" == "{\"items\":["; }
      o + "{\"items\":[" + x + t;
    }
  }

  /** The bytes a page is put together from are the rendered reply. */
  lemma {:induction false} PagePieces(id: U32, rows: seq<Doc>, cursor: Option<U64>)
    ensures Header(id) + RenderItems(rows) + Tail(cursor) == Render(PageDoc(id, rows, cursor))
  {
    hide RenderItems, RenderFields, IeeeText, Dec, CursorField, Opening, Tail, Header;
    var fields := [Field("items", DArr(rows))] + CursorField(cursor);
    EnvelopeText(id, DObj(fields));
    DataText(rows, cursor);
    assert Render(DObj(fields)) == "{" + RenderFields(fields) + "}";
    PageConcat(Opening(id), RenderItems(rows), RenderFields(fields), Tail(cursor));
    HeaderIsOpening(id);
  }

  lemma HeaderIsOpening(id: U32)
    ensures Header(id) == Opening(id) + "{\"items\":["
  {
    hide Dec;
  }

  lemma HeaderLength(id: U32)
    ensures |Header(id)| <= 44 && |Opening(id)| <= 34
  {
    hide Dec;
    DecLengths(id);
  }

  lemma TailLength(cursor: Option<U64>)
    ensures |Tail(cursor)| < PAGE_TAIL
  {
    if cursor.Some? { CursorRoundTrip(cursor.value, true); }
  }

  // ---- The page handler ----------------------------------------------------

  /** How far the loop of the page handler has come. */
  ghost predicate PageSoFar(pool: Pool, labels: Labels, id: U32, after: U64,
                            slots: seq<nat>, last: U64, pos: nat, first: bool)
  {
    var rest := PageFrom(pool, labels, last, pos, first);
    && first == (slots == [])
    && PageAfter(pool, labels, id, after) == Page(slots + rest.slots, rest.last, rest.more)
  }

  lemma PageStart(pool: Pool, labels: Labels, id: U32, after: U64)
    ensures PageSoFar(pool, labels, id, after, [], after, |Header(id)|, true)
  {
    hide Header, PageFrom;
    var p := PageAfter(pool, labels, id, after);
    assert [] + p.slots == p.slots;
  }

  lemma PageStep(pool: Pool, labels: Labels, id: U32, after: U64,
                 slots: seq<nat>, last: U64, pos: nat, first: bool, i: int, len: nat)
    requires PageSoFar(pool, labels, id, after, slots, last, pos, first)
    requires i < |pool| && i == NextSlot(pool, last)
    requires i >= 0 ==> len == |RowText(RowOf(labels, pool[i]), first)|
    ensures if i < 0 then PageAfter(pool, labels, id, after) == Page(slots, last, false)
            else if pos + len + PAGE_TAIL >= PAGE_CAP then PageAfter(pool, labels, id, after) == Page(slots, last, true)
            else
              var slot: nat := i;
              PageSoFar(pool, labels, id, after, slots + [slot], pool[slot].ieee, pos + len, false)
  {
    hide RowText, RowOf, PageAfter, NextAmong;
    assert slots + [] == slots;
    if i >= 0 && pos + len + PAGE_TAIL < PAGE_CAP {
      var rest := PageFrom(pool, labels, pool[i].ieee, pos + len, false);
      assert slots + ([i] + rest.slots) == slots + [i] + rest.slots;
    }
  }

  /** The text of the reply up to the last row copied. */
  function Head(pool: Pool, labels: Labels, id: U32, slots: seq<nat>): string
    requires InPool(pool, slots)
  {
    Header(id) + RenderItems(RowDocs(pool, labels, slots))
  }

  lemma HeadStart(pool: Pool, labels: Labels, id: U32)
    ensures Head(pool, labels, id, []) == Header(id)
  {
    hide Header;
    assert RowDocs(pool, labels, []) == [];
    assert Header(id) + [] == Header(id);
  }

  lemma HeadStep(pool: Pool, labels: Labels, id: U32, slots: seq<nat>, i: nat)
    requires InPool(pool, slots) && i < |pool|
    ensures Head(pool, labels, id, slots + [i]) ==
            Head(pool, labels, id, slots) + RowText(RowOf(labels, pool[i]), slots == [])
  {
    hide Header, RowDocs, RenderItems, RowText, RowOf;
    AppendRow(pool, labels, slots, i, Header(id));
  }

  lemma PageEnd(pool: Pool, labels: Labels, id: U32, after: U64, page: Page)
    requires PageAfter(pool, labels, id, after) == page
    ensures InPool(pool, page.slots)
    ensures Head(pool, labels, id, page.slots) + Tail(CursorOf(page)) == PageText(pool, labels, id, after)
  {
    hide Header, RenderItems, RowDocs, Tail, PageDoc;
    PagePieces(id, RowDocs(pool, labels, page.slots), CursorOf(page));
  }

  lemma NextIsCandidate(pool: Pool, after: U64, i: int)
    requires IsNext(pool, |pool|, after, i) && i >= 0
    ensures i < |pool| && !pool[i].removed && pool[i].ieee > after
  {
  }

  /** The lines both handlers share: one row into its own buffer, and on into the
      reply if `spare` bytes and one are left behind it. */
  method AddRow(r: Row, first: bool, row: array<char>, buf: array<char>, pos: nat, cap: nat, spare: nat)
    returns (rn: nat, fit: bool)
    requires row.Length == ROW_CAP && row != buf && pos <= cap == buf.Length
    modifies row, buf
    ensures rn == |RowText(r, first)| && 0 < rn <= ROW_MAX
    ensures fit <==> pos + rn + spare < cap
    ensures buf[..pos] == old(buf[..pos])
    ensures fit ==> buf[..pos + rn] == old(buf[..pos]) + RowText(r, first)
  {
    hide RowText, Patch;
    rn := DevlistRow(r, first, row, ROW_CAP);
    RowFits(r, first);
    if rn == 0 || rn >= ROW_CAP {
      assert false;  // the skip branch is dead: bounded fields always fit
    }
    fit := pos + rn + spare < cap;
    if fit {
      ghost var before := buf[..pos];
      Blit(buf, pos, row[..rn]);
      assert buf[..pos] == buf[..pos + rn][..pos] == before;
    }
  }

  /** cmd_device_list_page: the reply is the rendered page, whatever the pool holds. */
  method CmdDeviceListPage(pool: Pool, labels: Labels, id: U32, after: U64) returns (buf: array<char>, pos: nat)
    ensures fresh(buf) && pos < buf.Length == 8192
    ensures buf[..pos] == PageText(pool, labels, id, after)
  {
    hide PageSoFar, PageFrom, Head, Header, Tail, RowText, RowOf, RowDoc, Render, IsNext,
        NextAmong, Patch, IeeeText, RowDocs;
    buf := new char[PAGE_CAP];
    HeaderLength(id);
    pos := Snprintf(buf, 0, PAGE_CAP, Header(id));
    var first, more, last := true, false, after;
    ghost var slots: seq<nat> := [];
    PageStart(pool, labels, id, after);
    HeadStart(pool, labels, id);
    var row := new char[ROW_CAP];
    while true
      invariant InPool(pool, slots) && first == (slots == []) && !more
      invariant PageSoFar(pool, labels, id, after, slots, last, pos, first)
      invariant pos + PAGE_TAIL < PAGE_CAP
      invariant buf[..pos] == Head(pool, labels, id, slots)
      decreases U64_LIMIT - last
    {
      var i := DevlistNext(pool, last);
      if i < 0 {
        PageStep(pool, labels, id, after, slots, last, pos, first, i, 0);
        break;
      }
      NextIsCandidate(pool, last, i);
      var rn, fit := AddRow(RowOf(labels, pool[i]), first, row, buf, pos, PAGE_CAP, PAGE_TAIL);
      PageStep(pool, labels, id, after, slots, last, pos, first, i, rn);
      if !fit { more := true; break; }
      HeadStep(pool, labels, id, slots, i);
      pos := pos + rn;
      first := false;
      last := pool[i].ieee;
      slots := slots + [i];
    }
    TailLength(CursorOf(Page(slots, last, more)));
    PageEnd(pool, labels, id, after, Page(slots, last, more));
    var tail := Tail(if more then Some(last) else None);
    var n := Snprintf(buf, pos, PAGE_CAP - pos, tail);
    pos := pos + n;
  }

  // ---- The local list ------------------------------------------------------

  /** Live slots from `i` on, in pool order. */
  function LiveFrom(pool: Pool, i: nat): (r: seq<nat>)
    requires i <= |pool|
    ensures InPool(pool, r)
    ensures forall k :: 0 <= k < |r| ==> r[k] >= i
    decreases |pool| - i
  {
    if i == |pool| then [] else (if pool[i].removed then [] else [i]) + LiveFrom(pool, i + 1)
  }

  /** The buffer of the local reply, sized from an earlier reading of the pool. */
  function ListCap(counted: nat): nat {
    64 + (counted + 4) * ROW_CAP
  }

  function ListDoc(id: U32, rows: seq<Doc>): Doc {
    DObj([Field("id", DInt(id)), Field("ok", DBool(true)), Field("data", DArr(rows))])
  }

  lemma {:induction false} ListPieces(id: U32, rows: seq<Doc>)
    ensures Opening(id) + "[" + RenderItems(rows) + "]}" == Render(ListDoc(id, rows))
  {
    hide RenderItems, Opening;
    EnvelopeText(id, DArr(rows));
    var o, x := Opening(id), RenderItems(rows);
    assert Render(DArr(rows)) == "[" + x + "]";
    assert o + ("[" + x + "]") + "}" == o + "[" + x + "]}";
  }

  /** What the local list has printed. */
  function ListHead(pool: Pool, labels: Labels, id: U32, slots: seq<nat>): string
    requires InPool(pool, slots)
  {
    Opening(id) + "[" + RenderItems(RowDocs(pool, labels, slots))
  }

  lemma ListHeadStart(pool: Pool, labels: Labels, id: U32)
    ensures ListHead(pool, labels, id, []) == Opening(id) + "["
  {
    hide Opening;
    assert RowDocs(pool, labels, []) == [];
    assert Opening(id) + "[" + [] == Opening(id) + "[";
  }

  lemma ListHeadStep(pool: Pool, labels: Labels, id: U32, slots: seq<nat>, i: nat)
    requires InPool(pool, slots) && i < |pool|
    ensures ListHead(pool, labels, id, slots + [i]) ==
            ListHead(pool, labels, id, slots) + RowText(RowOf(labels, pool[i]), slots == [])
  {
    hide Opening, RowDocs, RenderItems, RowText, RowOf;
    AppendRow(pool, labels, slots, i, Opening(id) + "[");
  }

  lemma ListEnd(pool: Pool, labels: Labels, id: U32, slots: seq<nat>)
    requires InPool(pool, slots)
    ensures ListHead(pool, labels, id, slots) + "]}" == Render(ListDoc(id, RowDocs(pool, labels, slots)))
  {
    hide Opening, RowDocs, RenderItems, ListDoc;
    ListPieces(id, RowDocs(pool, labels, slots));
  }

  lemma LiveStep(pool: Pool, i: nat, slots: seq<nat>)
    requires i < |pool|
    requires slots + LiveFrom(pool, i) == LiveFrom(pool, 0)
    ensures (if pool[i].removed then slots else slots + [i]) + LiveFrom(pool, i + 1) == LiveFrom(pool, 0)
  {
    var rest := LiveFrom(pool, i + 1);
    if pool[i].removed {
      assert LiveFrom(pool, i) == rest;
    } else {
      assert slots + ([i] + rest) == slots + [i] + rest;
    }
  }

  lemma ListCapRoom(counted: nat)
    ensures ListCap(counted) == 64 + (counted + 4) * 640 >= 64 + 4 * ROW_CAP
  {
  }

  /** What the loop of the local list has done before slot `i`. */
  ghost predicate ListSoFar(pool: Pool, labels: Labels, id: U32, slots: seq<nat>, i: nat, text: string, first: bool)
  {
    && i <= |pool| && InPool(pool, slots) && first == (slots == []) && |slots| <= i
    && slots + LiveFrom(pool, i) == LiveFrom(pool, 0)
    && text == ListHead(pool, labels, id, slots) && |text| <= 35 + ROW_MAX * |slots|
  }

  lemma ListSoFarStart(pool: Pool, labels: Labels, id: U32)
    ensures ListSoFar(pool, labels, id, [], 0, Opening(id) + "[", true)
  {
    hide LiveFrom, ListHead, Opening;
    ListHeadStart(pool, labels, id);
    HeaderLength(id);
    assert [] + LiveFrom(pool, 0) == LiveFrom(pool, 0);
  }

  /** One turn: a removed slot is passed over, a live one adds its row. */
  lemma ListSoFarStep(pool: Pool, labels: Labels, id: U32, slots: seq<nat>, i: nat, text: string, first: bool)
    requires ListSoFar(pool, labels, id, slots, i, text, first) && i < |pool|
    ensures pool[i].removed ==> ListSoFar(pool, labels, id, slots, i + 1, text, first)
    ensures !pool[i].removed ==>
              var row := RowText(RowOf(labels, pool[i]), first);
              0 < |row| <= ROW_MAX && ListSoFar(pool, labels, id, slots + [i], i + 1, text + row, false)
  {
    hide LiveFrom, ListHead, RowText, RowOf;
    LiveStep(pool, i, slots);
    if !pool[i].removed {
      RowFits(RowOf(labels, pool[i]), first);
      ListHeadStep(pool, labels, id, slots, i);
    }
  }

  /** cmd_device_list for the local client. `counted` is the unlocked reading of
      the pool size. The reply is always one well-formed document; its rows are
      the live devices in pool order, all of them unless the pool grew by more
      than four slots since that reading, and a prefix of them otherwise. */
  method CmdDeviceList(counted: nat, pool: Pool, labels: Labels, id: U32)
    returns (buf: array<char>, pos: nat, truncated: bool, ghost slots: seq<nat>)
    ensures fresh(buf) && pos <= buf.Length == 64 + (counted + 4) * 640
    ensures InPool(pool, slots) && slots <= LiveFrom(pool, 0)
    ensures buf[..pos] == Render(ListDoc(id, RowDocs(pool, labels, slots)))
    ensures truncated <==> slots != LiveFrom(pool, 0)
    ensures truncated ==> pos - 2 + 612 + 4 >= buf.Length
    ensures |pool| <= counted + 4 ==> !truncated
  {
    hide ListSoFar, ListHead, Opening, RowText, RowOf, Render, Patch, RowDocs, LiveFrom, InPool, ListDoc, ListCap;
    var cap := ListCap(counted);
    ListCapRoom(counted);
    buf := new char[cap];
    HeaderLength(id);
    ghost var text := Opening(id) + "[";
    pos := Snprintf(buf, 0, cap, Opening(id) + "[");
    var first := true;
    truncated, slots := false, [];
    ListSoFarStart(pool, labels, id);
    var row := new char[ROW_CAP];
    var i := 0;
    while i < |pool|
      invariant pos + 4 < cap && !truncated
      invariant buf[..pos] == text && ListSoFar(pool, labels, id, slots, i, text, first)
    {
      ListSoFarStep(pool, labels, id, slots, i, text, first);
      if !pool[i].removed {
        var rn, fit := AddRow(RowOf(labels, pool[i]), first, row, buf, pos, cap, 4);
        if !fit { truncated := true; break; }
        text := text + RowText(RowOf(labels, pool[i]), first);
        pos := pos + rn;
        first := false;
        slots := slots + [i];
      }
      i := i + 1;
    }
    ListSoFarEnd(counted, pool, labels, id, slots, i, text, first, truncated);
    Blit(buf, pos, "]}");
    pos := pos + 2;
  }

  /** What the state at the end of the loop says, where `truncated` is that a live
      device found no room. */
  lemma {:induction false} ListSoFarEnd(counted: nat, pool: Pool, labels: Labels, id: U32, slots: seq<nat>, i: nat,
                                        text: string, first: bool, truncated: bool)
    requires ListSoFar(pool, labels, id, slots, i, text, first)
    requires truncated ==> i < |pool| && !pool[i].removed && |text| + ROW_MAX + 4 >= ListCap(counted)
    requires !truncated ==> i >= |pool|
    ensures InPool(pool, slots) && slots <= LiveFrom(pool, 0)
    ensures text + "]}" == Render(ListDoc(id, RowDocs(pool, labels, slots)))
    ensures truncated <==> slots != LiveFrom(pool, 0)
    ensures |pool| <= counted + 4 ==> !truncated
  {
    hide LiveFrom, ListHead, Render, ListDoc, RowDocs;
    ListEnd(pool, labels, id, slots);
    if truncated {
      LiveAt(pool, i);
    } else {
      LiveAtEnd(pool);
      assert slots + [] == slots;
    }
  }

  lemma {:induction false} LiveAt(pool: Pool, i: nat)
    requires i < |pool| && !pool[i].removed
    ensures LiveFrom(pool, i) != []
  {
  }

  lemma {:induction false} LiveAtEnd(pool: Pool)
    ensures LiveFrom(pool, |pool|) == []
  {
  }

  lemma LiveUnfold(pool: Pool, i: nat)
    requires i < |pool|
    ensures LiveFrom(pool, i) == if pool[i].removed then LiveFrom(pool, i + 1) else [i] + LiveFrom(pool, i + 1)
  {
    assert [] + LiveFrom(pool, i + 1) == LiveFrom(pool, i + 1);
  }

  ghost predicate Climbing(s: seq<nat>) {
    forall a, b :: 0 <= a < b < |s| ==> s[a] < s[b]
  }

  lemma ClimbingCons(i: nat, rest: seq<nat>)
    requires Climbing(rest) && forall k :: 0 <= k < |rest| ==> rest[k] > i
    ensures Climbing([i] + rest)
  {
  }

  lemma {:induction false} LiveClimbs(pool: Pool, i: nat)
    requires i <= |pool|
    ensures Climbing(LiveFrom(pool, i))
    decreases |pool| - i
  {
    hide LiveFrom, Climbing;
    if i < |pool| {
      LiveUnfold(pool, i);
      LiveClimbs(pool, i + 1);
      ClimbingCons(i, LiveFrom(pool, i + 1));
    } else {
      LiveAtEnd(pool);
      NothingClimbs();
    }
  }

  lemma NothingClimbs()
    ensures Climbing([])
  {
  }

  lemma {:induction false} LiveMember(pool: Pool, i: nat, k: nat)
    requires i <= |pool|
    ensures k in LiveFrom(pool, i) <==> i <= k < |pool| && !pool[k].removed
    decreases |pool| - i
  {
    hide LiveFrom;
    if i < |pool| {
      LiveUnfold(pool, i);
      LiveMember(pool, i + 1, k);
    } else {
      LiveAtEnd(pool);
    }
  }

  /** The list is exactly the live slots, each once, ascending. */
  lemma {:induction false} LiveFromExact(pool: Pool, i: nat, k: nat)
    requires i <= |pool|
    ensures k in LiveFrom(pool, i) <==> i <= k < |pool| && !pool[k].removed
    ensures forall a, b :: 0 <= a < b < |LiveFrom(pool, i)| ==> LiveFrom(pool, i)[a] < LiveFrom(pool, i)[b]
  {
    hide LiveFrom;
    LiveMember(pool, i, k);
    LiveClimbs(pool, i);
  }
}
