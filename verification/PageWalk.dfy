// The paging protocol of device.list, seen from a client that parses each reply
// and sends its next_cursor back, while devices join, leave and reuse slots
// between any two requests.
module PageWalk {
  import opened Bytes
  import opened Numbers
  import opened JsonText
  import opened JsonFields
  import opened DeviceRow
  import opened DevicePages

  // ---- The order of one page ----------------------------------------------

  /** Some live device has this IEEE. */
  ghost predicate Live(pool: Pool, v: int) {
    exists k :: 0 <= k < |pool| && !pool[k].removed && pool[k].ieee == v
  }

  ghost predicate Increasing(s: seq<U64>) {
    forall a, b :: 0 <= a < b < |s| ==> s[a] < s[b]
  }

  function Ieees(pool: Pool, slots: seq<nat>): (r: seq<U64>)
    requires InPool(pool, slots)
    ensures |r| == |slots|
  {
    seq(|slots|, k requires 0 <= k < |slots| => pool[slots[k]].ieee)
  }

  /** What a page sends: live devices behind the cursor, strictly ascending, none
      left out up to its last one, and `more` exactly when a live one remains. */
  ghost predicate Covers(pool: Pool, after: U64, sent: seq<U64>, last: U64, more: bool) {
    && Increasing(sent)
    && (forall k :: 0 <= k < |sent| ==> sent[k] > after && Live(pool, sent[k]))
    && last == (if sent == [] then after else sent[|sent| - 1])
    && (forall v :: after < v <= last && Live(pool, v) ==> v in sent)
    && (more <==> exists v :: v > last && Live(pool, v))
  }

  lemma NextSlotMeaning(pool: Pool, after: U64)
    ensures var i := NextSlot(pool, after);
            if i < 0 then forall v :: v > after ==> !Live(pool, v)
            else && i < |pool| && pool[i].ieee > after && Live(pool, pool[i].ieee)
                 && forall v :: after < v < pool[i].ieee ==> !Live(pool, v)
  {
    var i := NextSlot(pool, after);
    assert IsNext(pool, |pool|, after, i);
    forall k | 0 <= k < |pool| && !pool[k].removed && pool[k].ieee > after
      ensures i >= 0 && pool[i].ieee <= pool[k].ieee
    {
      assert Candidate(pool, after, k);
    }
  }

  lemma CoversCons(pool: Pool, after: U64, v: U64, sent: seq<U64>, last: U64, more: bool)
    requires v > after && Live(pool, v) && forall u :: after < u < v ==> !Live(pool, u)
    requires Covers(pool, v, sent, last, more)
    ensures Covers(pool, after, [v] + sent, last, more)
  {
    hide Live;
    var all := [v] + sent;
    assert sent == [] ==> all == [v];
    forall u | after < u <= last && Live(pool, u)
      ensures u in all
    {
      if u > v { assert u in sent; } else { assert all[0] == v; }
    }
  }

  lemma CoversNothing(pool: Pool, after: U64, more: bool)
    requires more <==> NextSlot(pool, after) >= 0
    ensures Covers(pool, after, [], after, more)
  {
    hide Live;
    NextSlotMeaning(pool, after);
    if more {
      assert Live(pool, pool[NextSlot(pool, after)].ieee);
    }
  }

  /** A page covers its stretch of IEEEs, and stops early only when its bytes are
      used up: at most 612 to a row. */
  lemma {:induction false} PageFromCovers(pool: Pool, labels: Labels, last: U64, pos: nat, first: bool)
    ensures var p := PageFrom(pool, labels, last, pos, first);
            && Covers(pool, last, Ieees(pool, p.slots), p.last, p.more)
            && (p.more ==> pos + ROW_MAX * (|p.slots| + 1) + PAGE_TAIL >= PAGE_CAP)
    decreases U64_LIMIT - last
  {
    hide RowText, RowOf, Covers, Live, NextAmong, IsNext;
    var p := PageFrom(pool, labels, last, pos, first);
    var i := NextSlot(pool, last);
    NextSlotMeaning(pool, last);
    if i < 0 {
      CoversNothing(pool, last, false);
      assert Ieees(pool, []) == [];
    } else {
      var len := |RowText(RowOf(labels, pool[i]), first)|;
      RowFits(RowOf(labels, pool[i]), first);
      if pos + len + PAGE_TAIL >= PAGE_CAP {
        CoversNothing(pool, last, true);
        assert Ieees(pool, []) == [];
      } else {
        var q := PageFrom(pool, labels, pool[i].ieee, pos + len, false);
        PageFromCovers(pool, labels, pool[i].ieee, pos + len, false);
        CoversCons(pool, last, pool[i].ieee, Ieees(pool, q.slots), q.last, q.more);
        assert Ieees(pool, p.slots) == [pool[i].ieee] + Ieees(pool, q.slots);
      }
    }
  }

  /** Every page that carries a cursor has at least 13 rows. */
  lemma PageProgress(pool: Pool, labels: Labels, id: U32, after: U64)
    ensures var p := PageAfter(pool, labels, id, after);
            && Covers(pool, after, Ieees(pool, p.slots), p.last, p.more)
            && (p.more ==> |p.slots| >= 13)
  {
    hide Covers, PageFrom, Header;
    PageFromCovers(pool, labels, after, |Header(id)|, true);
    HeaderLength(id);
  }

  /** A page never outgrows its 8192 bytes. */
  lemma PageFits(pool: Pool, labels: Labels, id: U32, after: U64)
    ensures |PageText(pool, labels, id, after)| < 8192
  {
    hide PageFrom, Header, Head, Tail;
    var page := PageAfter(pool, labels, id, after);
    PageStart(pool, labels, id, after);
    HeadStart(pool, labels, id);
    HeaderLength(id);
    HeadFits(pool, labels, id, after, [], after, |Header(id)|, true);
    PageEnd(pool, labels, id, after, page);
    TailLength(CursorOf(page));
  }

  lemma {:induction false} HeadFits(pool: Pool, labels: Labels, id: U32, after: U64,
                                    slots: seq<nat>, last: U64, pos: nat, first: bool)
    requires InPool(pool, slots) && PageSoFar(pool, labels, id, after, slots, last, pos, first)
    requires pos == |Head(pool, labels, id, slots)| && pos + PAGE_TAIL < PAGE_CAP
    ensures |Head(pool, labels, id, PageAfter(pool, labels, id, after).slots)| + PAGE_TAIL < PAGE_CAP
    decreases U64_LIMIT - last
  {
    hide PageSoFar, PageFrom, Head, RowText, RowOf, PageAfter, NextAmong, IsNext;
    var i := NextSlot(pool, last);
    NextSlotMeaning(pool, last);
    var len := if i < 0 then 0 else |RowText(RowOf(labels, pool[i]), first)|;
    PageStep(pool, labels, id, after, slots, last, pos, first, i, len);
    if i >= 0 && pos + len + PAGE_TAIL < PAGE_CAP {
      SoFarFirst(pool, labels, id, after, slots, last, pos, first);
      HeadStep(pool, labels, id, slots, i);
      HeadFits(pool, labels, id, after, slots + [i], pool[i].ieee, pos + len, false);
    }
  }

  /** No page is cut short: one with a cursor has no room for the next live device
      and the 48 bytes kept for the tail. */
  lemma {:induction false} PageIsFull(pool: Pool, labels: Labels, id: U32, after: U64)
    ensures var p := PageAfter(pool, labels, id, after);
            p.more ==>
              var i := NextSlot(pool, p.last);
              0 <= i < |pool| &&
              |Head(pool, labels, id, p.slots)| + |RowText(RowOf(labels, pool[i]), p.slots == [])| + 48 >= 8192
  {
    hide Head, Header, PageFrom, RowText, RowOf;
    PageStart(pool, labels, id, after);
    HeadStart(pool, labels, id);
    FullFrom(pool, labels, id, after, [], after, |Header(id)|, true);
  }

  lemma {:induction false} FullFrom(pool: Pool, labels: Labels, id: U32, after: U64,
                                    slots: seq<nat>, last: U64, pos: nat, first: bool)
    requires InPool(pool, slots) && PageSoFar(pool, labels, id, after, slots, last, pos, first)
    requires pos == |Head(pool, labels, id, slots)|
    ensures var p := PageAfter(pool, labels, id, after);
            p.more ==>
              var i := NextSlot(pool, p.last);
              0 <= i < |pool| &&
              |Head(pool, labels, id, p.slots)| + |RowText(RowOf(labels, pool[i]), p.slots == [])| + 48 >= 8192
    decreases U64_LIMIT - last
  {
    hide PageSoFar, Head, PageFrom, RowText, RowOf, Header;
    SoFarFirst(pool, labels, id, after, slots, last, pos, first);
    var i := NextSlot(pool, last);
    if i < 0 {
      PageStep(pool, labels, id, after, slots, last, pos, first, i, 0);
    } else {
      NextSlotMeaning(pool, last);
      var len := |RowText(RowOf(labels, pool[i]), first)|;
      PageStep(pool, labels, id, after, slots, last, pos, first, i, len);
      if pos + len + PAGE_TAIL < PAGE_CAP {
        HeadStep(pool, labels, id, slots, i);
        FullFrom(pool, labels, id, after, slots + [i], pool[i].ieee, pos + len, false);
      }
    }
  }

  lemma SoFarFirst(pool: Pool, labels: Labels, id: U32, after: U64,
                   slots: seq<nat>, last: U64, pos: nat, first: bool)
    requires PageSoFar(pool, labels, id, after, slots, last, pos, first)
    ensures first == (slots == [])
  {
  }

  // ---- The client ----------------------------------------------------------

  /** The IEEEs of the items of a reply, read the way the hub reads them. */
  function ReadIeees(items: seq<Json>): Option<seq<U64>> {
    if items == [] then Some([])
    else
      var v := Get(items[0], "ieee");
      var rest := ReadIeees(items[1..]);
      if v.Some? && v.value.JStr? && rest.Some? then Some([ParseIeee(Some(v.value.bytes))] + rest.value) else None
  }

  datatype ClientPage = ClientPage(ieees: seq<U64>, cursor: Option<string>)

  /** A reply as the client understands it. */
  function ReadReply(text: string): Option<ClientPage> {
    var j := Parse(text);
    var data := if j.Some? then Get(j.value, "data") else None;
    if data.None? then None
    else
      var items := Get(data.value, "items");
      var cursor := Get(data.value, "next_cursor");
      if items.None? || !items.value.JArr? then None
      else
        var ieees := ReadIeees(items.value.items);
        if ieees.None? then None
        else if cursor.None? then Some(ClientPage(ieees.value, None))
        else if cursor.value.JStr? then Some(ClientPage(ieees.value, Some(cursor.value.bytes)))
        else None
  }

  lemma RowIeee(r: Row)
    ensures Get(RowValue(r), "ieee") == Some(JStr(IeeeText(r.ieee)))
    ensures ParseIeee(Some(IeeeText(r.ieee))) == r.ieee
  {
    hide Hex, Strtoull;
    CursorRoundTrip(r.ieee, true);
  }

  lemma {:induction false} RowsRead(pool: Pool, labels: Labels, slots: seq<nat>)
    requires InPool(pool, slots)
    ensures forall k :: 0 <= k < |slots| ==> WellFormed(RowDocs(pool, labels, slots)[k])
    ensures ReadIeees(Meanings(RowDocs(pool, labels, slots))) == Some(Ieees(pool, slots))
  {
    hide RowOf, RowDoc, RowValue, Get, WellFormed, Meaning, ParseIeee;
    var docs := RowDocs(pool, labels, slots);
    forall k | 0 <= k < |slots|
      ensures WellFormed(docs[k])
    {
      RowMeaning(RowOf(labels, pool[slots[k]]));
    }
    if slots != [] {
      var r := RowOf(labels, pool[slots[0]]);
      RowMeaning(r);
      RowIeee(r);
      RowOfIeee(labels, pool[slots[0]]);
      RowsRead(pool, labels, slots[1..]);
      assert docs[1..] == RowDocs(pool, labels, slots[1..]);
      MeaningsCons(docs);
      assert Ieees(pool, slots) == [pool[slots[0]].ieee] + Ieees(pool, slots[1..]);
    } else {
      assert docs == [] && Meanings(docs) == [] && Ieees(pool, slots) == [];
    }
  }

  lemma RowOfIeee(labels: Labels, d: Device)
    ensures RowOf(labels, d).ieee == d.ieee
  {
  }

  /** The data object of a page as the client sees it. */
  function DataValue(rows: seq<Json>, cursor: Option<U64>): Json {
    JObj([Member("items", JArr(rows))] +
         (if cursor.Some? then [Member("next_cursor", JStr(IeeeText(cursor.value)))] else []))
  }

  lemma DataReads(rows: seq<Doc>, cursor: Option<U64>)
    requires forall k :: 0 <= k < |rows| ==> WellFormed(rows[k])
    ensures var d := DObj([Field("items", DArr(rows))] + CursorField(cursor));
            WellFormed(d) && Meaning(d) == DataValue(Meanings(rows), cursor)
  {
    hide IeeeText, Meanings, WellFormed, Meaning, ReadsAs;
    var fields := [Field("items", DArr(rows))] + CursorField(cursor);
    var members := DataValue(Meanings(rows), cursor).members;
    ArrayReadsAs("items", rows);
    assert fields[0] == Field("items", DArr(rows)) && members[0] == Member("items", JArr(Meanings(rows)));
    if cursor.Some? {
      IeeeReadsAs("next_cursor", cursor.value);
    }
    ObjectMeaning(DObj(fields), members);
  }

  lemma ReplyReads(id: U32, rows: seq<Doc>, cursor: Option<U64>)
    requires forall k :: 0 <= k < |rows| ==> WellFormed(rows[k])
    ensures var d := PageDoc(id, rows, cursor);
            && WellFormed(d)
            && Meaning(d) == JObj([Member("id", JInt(id)), Member("ok", JBool(true)),
                                   Member("data", DataValue(Meanings(rows), cursor))])
  {
    hide DataValue, CursorField, Meanings, ReadsAs;
    var data := DObj([Field("items", DArr(rows))] + CursorField(cursor));
    var members := [Member("id", JInt(id)), Member("ok", JBool(true)),
                    Member("data", DataValue(Meanings(rows), cursor))];
    DataReads(rows, cursor);
    IntReadsAs("id", id);
    BoolReadsAs("ok", true);
    DocReadsAs("data", data);
    ObjectMeaning(PageDoc(id, rows, cursor), members);
  }

  lemma LookupData(id: U32, rows: seq<Json>, cursor: Option<U64>)
    ensures var j := JObj([Member("id", JInt(id)), Member("ok", JBool(true)), Member("data", DataValue(rows, cursor))]);
            Get(j, "data") == Some(DataValue(rows, cursor))
    ensures Get(DataValue(rows, cursor), "items") == Some(JArr(rows))
    ensures Get(DataValue(rows, cursor), "next_cursor") ==
            if cursor.Some? then Some(JStr(IeeeText(cursor.value))) else None
  {
    hide IeeeText;
    var m := [Member("id", JInt(id)), Member("ok", JBool(true)), Member("data", DataValue(rows, cursor))];
    assert m[1..] == [m[1], m[2]] && m[1..][1..] == [m[2]];
    assert Lookup([m[2]], "data") == Some(DataValue(rows, cursor));
    assert Lookup(m[1..], "data") == Lookup([m[2]], "data");
    var d := DataValue(rows, cursor).members;
    assert d[0] == Member("items", JArr(rows));
    if cursor.Some? {
      var n := Member("next_cursor", JStr(IeeeText(cursor.value)));
      assert d[1..] == [n];
      assert Lookup([n], "next_cursor") == Some(n.value);
    } else {
      assert d[1..] == [];
      assert Lookup([], "next_cursor") == None;
    }
  }

  /** Each reply is well-formed JSON from which the client reads exactly the
      IEEEs of the page, and the cursor exactly when the page has one. */
  lemma PageReads(pool: Pool, labels: Labels, id: U32, after: U64)
    ensures var p := PageAfter(pool, labels, id, after);
            ReadReply(PageText(pool, labels, id, after)) ==
            Some(ClientPage(Ieees(pool, p.slots), if p.more then Some(IeeeText(p.last)) else None))
  {
    hide PageFrom, RowDocs, PageDoc, DataValue, Get, IeeeText, Render, Meaning, Meanings,
         WellFormed, ParseValue, ReadIeees;
    var p := PageAfter(pool, labels, id, after);
    var rows := RowDocs(pool, labels, p.slots);
    RowsRead(pool, labels, p.slots);
    ReplyReads(id, rows, CursorOf(p));
    ParseDocument(PageDoc(id, rows, CursorOf(p)));
    LookupData(id, Meanings(rows), CursorOf(p));
  }

  // ---- The walk ------------------------------------------------------------

  /** The hub at the time of one request: its pool and labels, and the request id. */
  datatype Visit = Visit(pool: Pool, labels: Labels, id: U32)

  /** cmd_device_list for a remote caller. */
  function Serve(v: Visit, cursor: Option<string>): string {
    PageText(v.pool, v.labels, v.id, ParseIeee(cursor))
  }

  /** The pages a client reads when it starts from `cursor` and sends every
      next_cursor back; `visits` are the states the hub happens to be in. */
  function Walk(visits: seq<Visit>, cursor: Option<string>): (pages: seq<ClientPage>)
    ensures |pages| <= |visits|
  {
    if visits == [] then []
    else
      var reply := ReadReply(Serve(visits[0], cursor));
      if reply.None? then []
      else if reply.value.cursor.None? then [reply.value]
      else [reply.value] + Walk(visits[1..], reply.value.cursor)
  }

  /** The walk has seen a page without next_cursor. */
  predicate Complete(pages: seq<ClientPage>) {
    pages != [] && pages[|pages| - 1].cursor.None?
  }

  function Sent(pages: seq<ClientPage>): seq<U64> {
    if pages == [] then [] else pages[0].ieees + Sent(pages[1..])
  }

  /** One request of a walk in numbers. */
  lemma {:induction false} WalkUnfold(visits: seq<Visit>, cursor: Option<string>)
    requires visits != []
    ensures var v := visits[0];
            var p := PageAfter(v.pool, v.labels, v.id, ParseIeee(cursor));
            var sent := Ieees(v.pool, p.slots);
            && Covers(v.pool, ParseIeee(cursor), sent, p.last, p.more)
            && (p.more ==> |sent| >= 13)
            && ParseIeee(Some(IeeeText(p.last))) == p.last
            && Walk(visits, cursor) ==
               if p.more then [ClientPage(sent, Some(IeeeText(p.last)))] + Walk(visits[1..], Some(IeeeText(p.last)))
               else [ClientPage(sent, None)]
  {
    hide PageAfter, ReadReply, PageText, Covers, Strtoull, Hex;
    var v := visits[0];
    PageProgress(v.pool, v.labels, v.id, ParseIeee(cursor));
    PageReads(v.pool, v.labels, v.id, ParseIeee(cursor));
    CursorRoundTrip(PageAfter(v.pool, v.labels, v.id, ParseIeee(cursor)).last, true);
  }

  lemma IncreasingConcat(a: seq<U64>, b: seq<U64>, after: int, mid: int)
    requires Increasing(a) && Increasing(b)
    requires forall k :: 0 <= k < |a| ==> after < a[k] <= mid
    requires forall k :: 0 <= k < |b| ==> b[k] > mid
    requires mid >= after
    ensures Increasing(a + b)
    ensures forall k :: 0 <= k < |a + b| ==> (a + b)[k] > after
  {
  }

  lemma CoversBounds(pool: Pool, after: U64, sent: seq<U64>, last: U64, more: bool)
    requires Covers(pool, after, sent, last, more)
    ensures Increasing(sent) && after <= last
    ensures forall k :: 0 <= k < |sent| ==> after < sent[k] <= last
  {
  }

  /** Whatever happens to the pool between requests, the IEEEs of a whole walk
      are strictly ascending: none is sent twice. */
  lemma {:induction false} WalkAscends(visits: seq<Visit>, cursor: Option<string>)
    ensures Increasing(Sent(Walk(visits, cursor)))
    ensures forall k :: 0 <= k < |Sent(Walk(visits, cursor))| ==> Sent(Walk(visits, cursor))[k] > ParseIeee(cursor)
    decreases |visits|
  {
    hide Walk, Covers, PageAfter, ParseIeee, Increasing;
    if visits == [] {
      WalkNothing(cursor);
    } else {
      var v := visits[0];
      var p := PageAfter(v.pool, v.labels, v.id, ParseIeee(cursor));
      var sent := Ieees(v.pool, p.slots);
      WalkUnfold(visits, cursor);
      CoversBounds(v.pool, ParseIeee(cursor), sent, p.last, p.more);
      if p.more {
        var next := Some(IeeeText(p.last));
        WalkAscends(visits[1..], next);
        IncreasingConcat(sent, Sent(Walk(visits[1..], next)), ParseIeee(cursor), p.last);
      } else {
        IncreasingConcat(sent, [], ParseIeee(cursor), p.last);
        assert [ClientPage(sent, None)] + [] == [ClientPage(sent, None)];
      }
    }
  }

  lemma {:induction false} WalkNothing(cursor: Option<string>)
    ensures Walk([], cursor) == [] && Sent([]) == [] && Increasing([])
  {
  }

  /** Every IEEE on a page was live when that page was built. */
  lemma {:induction false} WalkSendsLive(visits: seq<Visit>, cursor: Option<string>, i: nat, k: nat)
    requires i < |Walk(visits, cursor)| && k < |Walk(visits, cursor)[i].ieees|
    ensures i < |visits| && Live(visits[i].pool, Walk(visits, cursor)[i].ieees[k])
    decreases |visits|
  {
    hide PageAfter, ParseIeee, Serve, Live, ReadReply;
    if visits != [] {
      var v := visits[0];
      var p := PageAfter(v.pool, v.labels, v.id, ParseIeee(cursor));
      WalkUnfold(visits, cursor);
      if i > 0 {
        assert Walk(visits, cursor)[i] == Walk(visits[1..], Some(IeeeText(p.last)))[i - 1];
        WalkSendsLive(visits[1..], Some(IeeeText(p.last)), i - 1, k);
      }
    }
  }

  lemma CoversMember(pool: Pool, after: U64, sent: seq<U64>, last: U64, more: bool, v: U64)
    requires Covers(pool, after, sent, last, more) && Live(pool, v) && v > after
    ensures v <= last ==> v in sent
    ensures v > last ==> more
  {
  }

  /** A device that is live at every request that a complete walk makes is sent. */
  lemma {:induction false} WalkReachesAll(visits: seq<Visit>, cursor: Option<string>, ieee: U64)
    requires Complete(Walk(visits, cursor))
    requires ieee > ParseIeee(cursor)
    requires forall i :: 0 <= i < |Walk(visits, cursor)| ==> Live(visits[i].pool, ieee)
    ensures ieee in Sent(Walk(visits, cursor))
    decreases |visits|
  {
    hide Walk, Covers, PageAfter, ParseIeee, Live;
    if visits == [] {
      WalkNothing(cursor);
    } else {
      var v := visits[0];
      var p := PageAfter(v.pool, v.labels, v.id, ParseIeee(cursor));
      var sent := Ieees(v.pool, p.slots);
      WalkUnfold(visits, cursor);
      CoversMember(v.pool, ParseIeee(cursor), sent, p.last, p.more, ieee);
      if p.more {
        var next := Some(IeeeText(p.last));
        var rest := Walk(visits[1..], next);
        assert Complete(rest) by {
          assert Walk(visits, cursor)[|rest|] == ([ClientPage(sent, next)] + rest)[|rest|];
        }
        if ieee > p.last {
          assert forall i :: 0 <= i < |rest| ==> visits[1..][i] == visits[i + 1];
          WalkReachesAll(visits[1..], next, ieee);
        }
      } else {
        assert [ClientPage(sent, None)] + [] == [ClientPage(sent, None)];
      }
    }
  }

  lemma IncreasingGap(s: seq<U64>, after: int)
    requires Increasing(s) && s != [] && s[0] > after
    ensures s[|s| - 1] >= after + |s|
    decreases |s|
  {
    if |s| > 1 {
      var init := s[..|s| - 1];
      assert Increasing(init) by { assert forall a, b :: 0 <= a < b < |init| ==> s[a] < s[b]; }
      IncreasingGap(init, after);
      assert s[|s| - 2] < s[|s| - 1];
    }
  }

  lemma CoversGap(pool: Pool, after: U64, sent: seq<U64>, last: U64, more: bool)
    requires Covers(pool, after, sent, last, more)
    ensures last >= after + |sent|
  {
    if sent != [] { IncreasingGap(sent, after); }
  }

  /** The walk always ends: a client still being sent cursors after n requests has
      moved 13 n IEEEs up, and there are only 2^64. */
  lemma {:induction false} WalkEnds(visits: seq<Visit>, cursor: Option<string>)
    ensures |Walk(visits, cursor)| <= |visits|
    ensures !Complete(Walk(visits, cursor)) ==> ParseIeee(cursor) + 13 * |visits| < U64_LIMIT
    decreases |visits|
  {
    hide Walk, Covers, PageAfter, ParseIeee;
    if visits == [] {
      WalkNothing(cursor);
    } else {
      var v := visits[0];
      var p := PageAfter(v.pool, v.labels, v.id, ParseIeee(cursor));
      var sent := Ieees(v.pool, p.slots);
      WalkUnfold(visits, cursor);
      if p.more {
        var next := Some(IeeeText(p.last));
        var rest := Walk(visits[1..], next);
        CoversGap(v.pool, ParseIeee(cursor), sent, p.last, p.more);
        WalkEnds(visits[1..], next);
        if Complete(rest) {
          assert Walk(visits, cursor)[|rest|] == ([ClientPage(sent, next)] + rest)[|rest|];
        }
      }
    }
  }

  // ---- An unchanged pool ---------------------------------------------------

  /** The IEEEs still to be sent behind a cursor. */
  function Remaining(pool: Pool, after: int): set<U64> {
    set k | 0 <= k < |pool| && !pool[k].removed && pool[k].ieee > after :: pool[k].ieee
  }

  lemma RemainingIsLive(pool: Pool, after: int, v: U64)
    ensures v in Remaining(pool, after) <==> v > after && Live(pool, v)
  {
  }

  function Elements(s: seq<U64>): set<U64> {
    set v | v in s
  }

  lemma ElementsAppend(s: seq<U64>, v: U64)
    ensures Elements(s + [v]) == Elements(s) + {v}
  {
  }

  lemma {:induction false} SizeOfIncreasing(s: seq<U64>)
    requires Increasing(s)
    ensures |Elements(s)| == |s|
  {
    hide Elements;
    if s != [] {
      var init, last := s[..|s| - 1], s[|s| - 1];
      assert forall a :: 0 <= a < |init| ==> init[a] == s[a] < last;
      SizeOfIncreasing(init);
      assert s == init + [last];
      ElementsAppend(init, last);
      ElementsIn(init, last);
    } else {
      ElementsOfNone();
    }
  }

  lemma ElementsIn(s: seq<U64>, v: U64)
    ensures v in Elements(s) <==> v in s
  {
  }

  lemma ElementsOfNone()
    ensures |Elements([])| == 0
  {
    assert Elements([]) == {};
  }

  lemma RemainingShrinks(pool: Pool, after: U64, sent: seq<U64>, last: U64, more: bool)
    requires Covers(pool, after, sent, last, more)
    ensures |Remaining(pool, after)| == |sent| + |Remaining(pool, last)|
    ensures more ==> |Remaining(pool, last)| >= 1
  {
    hide Live, Remaining, Elements;
    CoversBounds(pool, after, sent, last, more);
    SizeOfIncreasing(sent);
    var a, b, s := Remaining(pool, after), Remaining(pool, last), Elements(sent);
    forall v: U64
      ensures v in a <==> v in s || v in b
      ensures !(v in s && v in b)
    {
      RemainingIsLive(pool, after, v);
      RemainingIsLive(pool, last, v);
      ElementsIn(sent, v);
    }
    assert a == s + b && s !! b;
    if more {
      var v :| v > last && Live(pool, v);
      LiveIsU64(pool, v);
      RemainingIsLive(pool, last, v);
      assert v in b;
    }
  }

  lemma LiveIsU64(pool: Pool, v: int)
    requires Live(pool, v)
    ensures 0 <= v < U64_LIMIT
  {
  }

  /** Of a pool that does not change, every page but the last sends at least 13,
      and a walk still without its last page has 13 sent for every request. */
  lemma {:induction false} UnchangedPages(visits: seq<Visit>, cursor: Option<string>, pool: Pool)
    requires forall i :: 0 <= i < |visits| ==> visits[i].pool == pool
    ensures var walk, n := Walk(visits, cursor), |Remaining(pool, ParseIeee(cursor))|;
            && (|walk| > 1 ==> 13 * (|walk| - 1) + 1 <= n)
            && (!Complete(walk) ==> visits == [] || 13 * |visits| + 1 <= n)
    decreases |visits|
  {
    hide Walk, Covers, PageAfter, ParseIeee, Remaining;
    if visits == [] {
      WalkNothing(cursor);
    } else {
      var v := visits[0];
      var p := PageAfter(v.pool, v.labels, v.id, ParseIeee(cursor));
      var sent := Ieees(v.pool, p.slots);
      WalkUnfold(visits, cursor);
      if p.more {
        var next := Some(IeeeText(p.last));
        var rest := Walk(visits[1..], next);
        RemainingShrinks(pool, ParseIeee(cursor), sent, p.last, p.more);
        UnchangedPages(visits[1..], next, pool);
        if Complete(rest) {
          assert Walk(visits, cursor)[|rest|] == ([ClientPage(sent, next)] + rest)[|rest|];
        }
      }
    }
  }

  // ---- The walk as a whole -------------------------------------------------

  /** A device that stays while a complete walk from the start lasts is sent
      exactly once, whatever joins, leaves or reuses slots meanwhile. */
  lemma SentExactlyOnce(visits: seq<Visit>, ieee: U64) returns (k: nat)
    requires Complete(Walk(visits, None)) && ieee > 0
    requires forall i :: 0 <= i < |Walk(visits, None)| ==> Live(visits[i].pool, ieee)
    ensures var sent := Sent(Walk(visits, None));
            k < |sent| && sent[k] == ieee && forall j :: 0 <= j < |sent| && j != k ==> sent[j] != ieee
  {
    hide Walk, Live;
    WalkReachesAll(visits, None, ieee);
    WalkAscends(visits, None);
    var sent := Sent(Walk(visits, None));
    k :| 0 <= k < |sent| && sent[k] == ieee;
    assert forall j :: 0 <= j < k ==> sent[j] < sent[k];
    assert forall j :: k < j < |sent| ==> sent[k] < sent[j];
  }

  /** Offered enough requests, every walk completes. */
  lemma {:induction false} WalkCompletes(visits: seq<Visit>)
    requires 13 * |visits| >= U64_LIMIT
    ensures Complete(Walk(visits, None))
  {
    hide Walk;
    WalkEnds(visits, None);
  }

  /** Pages enough for n devices. */
  function Pages(n: nat): nat {
    if n == 0 then 1 else (n + 12) / 13
  }

  /** N unchanged devices take at most max(1, ceil(N / 13)) pages, and that many
      requests complete the walk. */
  lemma {:induction false} PageCount(visits: seq<Visit>, pool: Pool)
    requires forall i :: 0 <= i < |visits| ==> visits[i].pool == pool
    ensures var most := Pages(|Remaining(pool, 0)|);
            && |Walk(visits, None)| <= most
            && (|visits| >= most ==> Complete(Walk(visits, None)))
  {
    hide Walk, Remaining;
    UnchangedPages(visits, None, pool);
    if |Walk(visits, None)| == 1 && |Remaining(pool, 0)| > 0 {
      assert (|Remaining(pool, 0)| + 12) / 13 >= 1;
    }
  }

  /** What a walk sends was live at one of its requests. */
  lemma {:induction false} SentWasLive(visits: seq<Visit>, cursor: Option<string>, ieee: U64) returns (i: nat)
    requires ieee in Sent(Walk(visits, cursor))
    ensures i < |visits| && Live(visits[i].pool, ieee)
    decreases |visits|
  {
    hide Walk, PageAfter, ParseIeee, Live;
    i := 0;
    if visits == [] {
      WalkNothing(cursor);
    } else {
      var v := visits[0];
      var p := PageAfter(v.pool, v.labels, v.id, ParseIeee(cursor));
      var sent := Ieees(v.pool, p.slots);
      WalkUnfold(visits, cursor);
      if p.more {
        var next := Some(IeeeText(p.last));
        if ieee !in sent {
          var j := SentWasLive(visits[1..], next, ieee);
          i := j + 1;
        }
      } else {
        assert [ClientPage(sent, None)] + [] == [ClientPage(sent, None)];
      }
    }
  }

  /** Asked often enough, an unchanged hub sends exactly its live devices. */
  lemma {:induction false} UnchangedIsListed(visits: seq<Visit>, pool: Pool, ieee: U64)
    requires forall i :: 0 <= i < |visits| ==> visits[i].pool == pool
    requires |visits| >= Pages(|Remaining(pool, 0)|)
    ensures Complete(Walk(visits, None))
    ensures ieee in Sent(Walk(visits, None)) <==> ieee > 0 && Live(pool, ieee)
  {
    hide Walk, Live, Remaining, Sent;
    PageCount(visits, pool);
    WalkAscends(visits, None);
    if ieee in Sent(Walk(visits, None)) {
      var i := SentWasLive(visits, None, ieee);
    }
    if ieee > 0 && Live(pool, ieee) {
      WalkReachesAll(visits, None, ieee);
    }
  }

  // ---- The local list ------------------------------------------------------

  /** The local reply is well-formed JSON from which a client reads the IEEEs of
      its rows in order. */
  lemma LocalListReads(pool: Pool, labels: Labels, id: U32, slots: seq<nat>) returns (rows: seq<Json>)
    requires InPool(pool, slots)
    ensures Parse(Render(ListDoc(id, RowDocs(pool, labels, slots)))) ==
            Some(JObj([Member("id", JInt(id)), Member("ok", JBool(true)), Member("data", JArr(rows))]))
    ensures ReadIeees(rows) == Some(Ieees(pool, slots))
  {
    hide RowDocs, Meanings, ReadsAs, WellFormed, Meaning, Render, Parse, ReadIeees;
    var docs := RowDocs(pool, labels, slots);
    RowsRead(pool, labels, slots);
    rows := Meanings(docs);
    IntReadsAs("id", id);
    BoolReadsAs("ok", true);
    ArrayReadsAs("data", docs);
    ObjectMeaning(ListDoc(id, docs), [Member("id", JInt(id)), Member("ok", JBool(true)), Member("data", JArr(rows))]);
    ParseDocument(ListDoc(id, docs));
  }
}
