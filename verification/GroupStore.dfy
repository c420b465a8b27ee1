// The group store of main/groups_store.cpp: a 32-bit slot bitmap and one blob
// per slot in flash, seen as a finite map from ids to records, in runs without
// interruption and when power fails between two flash writes.
module GroupStore {
  import opened Bytes
  import opened Numbers

  const MAX_GROUPS: nat := 32
  const MAX_MEMBERS: nat := 16

  type U8 = v: int | 0 <= v < 0x100
  datatype Member = Member(ieee: U64, ep: U8)
  datatype RawRecord = Record(id: U16, name: string, memberCount: U8, members: seq<Member>)

  /** GrpRecord: a 32-byte name field and 16 member slots. */
  type Record = r: RawRecord | |r.name| == 32 && |r.members| == MAX_MEMBERS
    witness Record(0, seq(32, _ => NUL), 0, seq(16, _ => Member(0, 0)))

  /** A value in the namespace: the bitmap word or a record. */
  datatype Value = Word(w: bv32) | Blob(r: Record)
  type Nvs = map<string, Value>

  // ---- Keys and bits -------------------------------------------------------

  const BMP: string := "bmp"

  /** grp_key. */
  function Key(id: U16): string {
    "g" + Hex(id, 4, false)
  }

  lemma KeysDiffer(a: U16, b: U16)
    ensures Key(a) != BMP
    ensures Key(a) == Key(b) ==> a == b
  {
    hide Hex, HexValue;
    HexRoundTrip(a, 4, false);
    HexRoundTrip(b, 4, false);
    assert Key(a)[1..] == Hex(a, 4, false) && Key(b)[1..] == Hex(b, 4, false);
    assert Key(a)[0] == 'g' && BMP[0] == 'b';
  }

  /** "g" and four lower-case digits, which are the id in hexadecimal. */
  lemma KeyForm(id: U16)
    ensures |Key(id)| == 5 && Key(id)[0] == 'g' && AllHex(Key(id)[1..]) && HexValue(Key(id)[1..]) == id
    ensures forall k :: 1 <= k < 5 ==> Key(id)[k] in "0123456789abcdef"
  {
    hide Hex, HexValue, AllHex;
    HexRoundTrip(id, 4, false);
    HexAlphabet(id, 4, false);
    assert Pow16(4) == 0x1_0000 by { PowersOfSixteen(); }
    HexLength(id, 4, false, 4);
    assert Key(id)[1..] == Hex(id, 4, false);
    assert forall k :: 1 <= k < 5 ==> Key(id)[k] == Hex(id, 4, false)[k - 1];
  }

  function Mask(i: nat): bv32
    requires i < 32
  {
    (1 as bv32) << i
  }

  predicate Meets(w: bv32, m: bv32) {
    w & m != 0
  }

  function With(w: bv32, m: bv32): bv32 {
    w | m
  }

  function Without(w: bv32, m: bv32): bv32 {
    w & !m
  }

  predicate Bit(w: bv32, i: nat)
    requires i < 32
  {
    Meets(w, Mask(i))
  }

  /** bmp |= 1 << i and bmp &= ~(1 << i) change bit i and no other. */
  lemma BitSet(w: bv32, i: nat, j: nat)
    requires i < 32 && j < 32
    ensures Bit(With(w, Mask(i)), j) <==> i == j || Bit(w, j)
  {
    hide Mask, Meets, With, Without, Apart;
    MasksDiffer(i, j);
    if i == j { MeetsSame(w, Mask(i)); } else { MeetsOther(w, Mask(i), Mask(j)); }
  }

  lemma BitCleared(w: bv32, i: nat, j: nat)
    requires i < 32 && j < 32
    ensures Bit(Without(w, Mask(i)), j) <==> i != j && Bit(w, j)
  {
    hide Mask, Meets, With, Without, Apart;
    MasksDiffer(i, j);
    if i == j { MeetsSame(w, Mask(i)); } else { MeetsOther(w, Mask(i), Mask(j)); }
  }

  predicate Apart(m: bv32, n: bv32) {
    !Meets(m, n)
  }

  lemma MasksDiffer(i: nat, j: nat)
    requires i < 32 && j < 32
    ensures Mask(i) != 0
    ensures i != j ==> Apart(Mask(i), Mask(j))
  {
  }

  lemma SameMask(w: bv32, m: bv32)
    ensures With(w, m) & m == m
    ensures Without(w, m) & m == 0
  {
  }

  lemma OtherMask(w: bv32, m: bv32, n: bv32)
    requires m & n == 0
    ensures With(w, m) & n == w & n
    ensures Without(w, m) & n == w & n
  {
  }

  lemma MeetsSame(w: bv32, m: bv32)
    requires m != 0
    ensures Meets(With(w, m), m) && !Meets(Without(w, m), m)
  {
    hide With, Without;
    SameMask(w, m);
  }

  lemma MeetsOther(w: bv32, m: bv32, n: bv32)
    requires Apart(m, n)
    ensures Meets(With(w, m), n) <==> Meets(w, n)
    ensures Meets(Without(w, m), n) <==> Meets(w, n)
  {
    hide With, Without;
    OtherMask(w, m, n);
  }

  // ---- What the flash shows ------------------------------------------------

  /** nvs_get_u32("bmp") with its default of 0. */
  function Bmp(nvs: Nvs): bv32 {
    if BMP in nvs && nvs[BMP].Word? then nvs[BMP].w else 0
  }

  /** nvs_get_blob of a slot. */
  function BlobAt(nvs: Nvs, id: U16): Option<Record> {
    if Key(id) in nvs && nvs[Key(id)].Blob? then Some(nvs[Key(id)].r) else None
  }

  predicate IsSlot(id: int) {
    1 <= id <= MAX_GROUPS
  }

  predicate Marked(nvs: Nvs, id: nat)
    requires IsSlot(id)
  {
    Bit(Bmp(nvs), id - 1)
  }

  /** A record as grp_load_all hands it out. */
  function Clamp(r: Record): Record {
    if r.memberCount > MAX_MEMBERS then r.(memberCount := MAX_MEMBERS) else r
  }

  /** The group grp_load_all finds under `id`, if any. */
  function Visible(nvs: Nvs, id: nat): Option<Record>
    requires IsSlot(id)
  {
    var b := BlobAt(nvs, id);
    if Marked(nvs, id) && b.Some? && b.value.id == id then Some(Clamp(b.value)) else None
  }

  /** The groups of the slots from `i` up to, not including, `n`. */
  function ListingUpTo(nvs: Nvs, n: nat): seq<Record>
    requires n <= MAX_GROUPS
  {
    if n == 0 then []
    else
      var v := Visible(nvs, n);
      ListingUpTo(nvs, n - 1) + (if v.Some? then [v.value] else [])
  }

  /** Everything grp_load_all would return. */
  function Listing(nvs: Nvs): seq<Record> {
    ListingUpTo(nvs, MAX_GROUPS)
  }

  /** The store as a finite map from ids to records. */
  function Groups(nvs: Nvs): map<nat, Record> {
    map id: nat | 1 <= id <= MAX_GROUPS && Visible(nvs, id).Some? :: Visible(nvs, id).value
  }

  lemma {:induction false} ListingOfVisible(a: Nvs, b: Nvs, n: nat)
    requires n <= MAX_GROUPS
    requires forall id: nat :: 1 <= id <= n ==> Visible(a, id) == Visible(b, id)
    ensures ListingUpTo(a, n) == ListingUpTo(b, n)
  {
    hide Visible;
    if n > 0 { ListingOfVisible(a, b, n - 1); }
  }

  lemma SameGroups(a: Nvs, b: Nvs)
    requires forall id: nat :: 1 <= id <= MAX_GROUPS ==> Visible(a, id) == Visible(b, id)
    ensures Groups(a) == Groups(b) && Listing(a) == Listing(b)
  {
    hide Visible;
    ListingOfVisible(a, b, MAX_GROUPS);
  }

  /** The listing is the map in ascending order of ids. */
  lemma {:induction false} ListingIsGroups(nvs: Nvs, n: nat)
    requires n <= MAX_GROUPS
    ensures var l := ListingUpTo(nvs, n);
            && (forall k :: 0 <= k < |l| ==>
                  1 <= l[k].id <= n && l[k].id in Groups(nvs) && Groups(nvs)[l[k].id] == l[k])
            && (forall j, k :: 0 <= j < k < |l| ==> l[j].id < l[k].id)
            && (forall id :: 1 <= id <= n && id in Groups(nvs) ==> Groups(nvs)[id] in l)
  {
    hide Groups, Visible;
    if n > 0 {
      ListingIsGroups(nvs, n - 1);
      GroupAt(nvs, n);
    }
  }

  lemma GroupAt(nvs: Nvs, id: nat)
    requires IsSlot(id)
    ensures id in Groups(nvs) <==> Visible(nvs, id).Some?
    ensures id in Groups(nvs) ==> Groups(nvs)[id] == Visible(nvs, id).value && Groups(nvs)[id].id == id
  {
    hide BlobAt, Marked;
  }

  // ---- The flash writes of each operation ----------------------------------

  /** nvs_set_blob of grp_save. */
  function BlobWritten(nvs: Nvs, r: Record): Nvs {
    nvs[Key(r.id) := Blob(r)]
  }

  /** nvs_set_u32 of grp_save. */
  function BitWritten(nvs: Nvs, id: nat): Nvs
    requires IsSlot(id)
  {
    nvs[BMP := Word(With(Bmp(nvs), Mask(id - 1)))]
  }

  /** nvs_erase_key of grp_delete. */
  function BlobErased(nvs: Nvs, id: U16): Nvs {
    nvs - {Key(id)}
  }

  /** nvs_set_u32 of grp_delete. */
  function BitErased(nvs: Nvs, id: nat): Nvs
    requires IsSlot(id)
  {
    nvs[BMP := Word(Without(Bmp(nvs), Mask(id - 1)))]
  }

  function Saved(nvs: Nvs, r: Record): Nvs
    requires IsSlot(r.id)
  {
    BitWritten(BlobWritten(nvs, r), r.id)
  }

  function Deleted(nvs: Nvs, id: nat): Nvs
    requires IsSlot(id)
  {
    BitErased(BlobErased(nvs, id), id)
  }

  lemma BlobWrittenEffect(nvs: Nvs, r: Record, id: U16)
    ensures Bmp(BlobWritten(nvs, r)) == Bmp(nvs)
    ensures BlobAt(BlobWritten(nvs, r), id) == if id == r.id then Some(r) else BlobAt(nvs, id)
  {
    hide Key;
    KeysDiffer(r.id, id);
  }

  lemma BlobErasedEffect(nvs: Nvs, e: U16, id: U16)
    ensures Bmp(BlobErased(nvs, e)) == Bmp(nvs)
    ensures BlobAt(BlobErased(nvs, e), id) == if id == e then None else BlobAt(nvs, id)
  {
    hide Key;
    KeysDiffer(e, id);
  }

  lemma WordStored(nvs: Nvs, w: bv32, id: U16)
    ensures Bmp(nvs[BMP := Word(w)]) == w
    ensures BlobAt(nvs[BMP := Word(w)], id) == BlobAt(nvs, id)
  {
    hide Key;
    KeysDiffer(id, id);
  }

  lemma BitWrittenEffect(nvs: Nvs, s: nat, id: U16)
    requires IsSlot(s)
    ensures IsSlot(id) ==> (Marked(BitWritten(nvs, s), id) <==> id == s || Marked(nvs, id))
    ensures BlobAt(BitWritten(nvs, s), id) == BlobAt(nvs, id)
  {
    hide Bit, Mask, Bmp, BlobAt, With, Without;
    WordStored(nvs, With(Bmp(nvs), Mask(s - 1)), id);
    if IsSlot(id) { BitSet(Bmp(nvs), s - 1, id - 1); }
  }

  lemma BitErasedEffect(nvs: Nvs, s: nat, id: U16)
    requires IsSlot(s)
    ensures IsSlot(id) ==> (Marked(BitErased(nvs, s), id) <==> id != s && Marked(nvs, id))
    ensures BlobAt(BitErased(nvs, s), id) == BlobAt(nvs, id)
  {
    hide Bit, Mask, Bmp, BlobAt, With, Without;
    WordStored(nvs, Without(Bmp(nvs), Mask(s - 1)), id);
    if IsSlot(id) { BitCleared(Bmp(nvs), s - 1, id - 1); }
  }

  /** After grp_save the map differs at the saved id only, from any flash state. */
  lemma SavedVisible(nvs: Nvs, r: Record, id: nat)
    requires IsSlot(r.id) && IsSlot(id)
    ensures Visible(Saved(nvs, r), id) == if id == r.id then Some(Clamp(r)) else Visible(nvs, id)
  {
    hide BlobAt, Bmp, BlobWritten, BitWritten, Bit;
    var m := BlobWritten(nvs, r);
    BlobWrittenEffect(nvs, r, id);
    BitWrittenEffect(m, r.id, id);
  }

  /** Between the two writes of grp_save: the old map if the bit was clear, the
      new one if it was set. */
  lemma BlobWrittenVisible(nvs: Nvs, r: Record, id: nat)
    requires IsSlot(r.id) && IsSlot(id)
    ensures Visible(BlobWritten(nvs, r), id) ==
            if Marked(nvs, r.id) then Visible(Saved(nvs, r), id) else Visible(nvs, id)
  {
    hide BlobAt, Bmp, BlobWritten, BitWritten, Bit;
    BlobWrittenEffect(nvs, r, id);
    BlobWrittenEffect(nvs, r, r.id);
    SavedVisible(nvs, r, id);
  }

  /** After grp_delete the map differs at the deleted id only; already the erase
      makes the whole change. */
  lemma DeletedVisible(nvs: Nvs, e: nat, id: nat)
    requires IsSlot(e) && IsSlot(id)
    ensures Visible(Deleted(nvs, e), id) == if id == e then None else Visible(nvs, id)
    ensures Visible(BlobErased(nvs, e), id) == Visible(Deleted(nvs, e), id)
  {
    hide BlobAt, Bmp, BlobErased, BitErased, Bit;
    BlobErasedEffect(nvs, e, id);
    BitErasedEffect(BlobErased(nvs, e), e, id);
  }

  /** The map after a save and after a delete. */
  lemma SavedGroups(nvs: Nvs, r: Record)
    requires IsSlot(r.id)
    ensures Groups(Saved(nvs, r)) == Groups(nvs)[r.id as nat := Clamp(r)]
  {
    hide Visible, Saved, Clamp;
    forall id: nat | 1 <= id <= MAX_GROUPS
      ensures Visible(Saved(nvs, r), id) == if id == r.id then Some(Clamp(r)) else Visible(nvs, id)
    {
      SavedVisible(nvs, r, id);
    }
  }

  /** What is saved is read back as it is; only a member count above 16 is cut. */
  lemma SavedReadsBack(nvs: Nvs, r: Record)
    requires 1 <= r.id <= 32
    ensures r.id as nat in Groups(Saved(nvs, r))
    ensures r.memberCount <= 16 ==> Groups(Saved(nvs, r))[r.id as nat] == r
    ensures r.memberCount > 16 ==> Groups(Saved(nvs, r))[r.id as nat] == r.(memberCount := 16)
  {
    hide Groups, Saved;
    SavedGroups(nvs, r);
  }

  /** A group that is read is the record stored under its id, cut like that. */
  predicate IsStored(nvs: Nvs, g: Record) {
    var b := BlobAt(nvs, g.id);
    && b.Some? && b.value.id == g.id
    && g == if b.value.memberCount <= 16 then b.value else b.value.(memberCount := 16)
  }

  /** The listing holds records as they are stored, in slots whose bit is set. */
  lemma {:induction false} ListedIsStored(nvs: Nvs, n: nat)
    requires n <= MAX_GROUPS
    ensures forall k :: 0 <= k < |ListingUpTo(nvs, n)| ==>
              var g := ListingUpTo(nvs, n)[k]; 1 <= g.id <= 32 && Marked(nvs, g.id) && IsStored(nvs, g)
  {
    hide BlobAt, Marked;
    if n > 0 { ListedIsStored(nvs, n - 1); }
  }

  lemma DeletedGroups(nvs: Nvs, e: nat)
    requires IsSlot(e)
    ensures Groups(Deleted(nvs, e)) == Groups(nvs) - {e}
  {
    hide Visible, Deleted;
    forall id: nat | 1 <= id <= MAX_GROUPS
      ensures Visible(Deleted(nvs, e), id) == if id == e then None else Visible(nvs, id)
    {
      DeletedVisible(nvs, e, id);
    }
  }

  /** Crash atomicity of the single writes: what a boot after any of them would
      list is the listing before the operation or the listing after it. */
  lemma SaveIsAtomic(nvs: Nvs, r: Record)
    requires IsSlot(r.id)
    ensures var mid, side := BlobWritten(nvs, r), if Marked(nvs, r.id) then Saved(nvs, r) else nvs;
            Listing(mid) == Listing(side) && Groups(mid) == Groups(side)
  {
    hide Visible, Saved, BlobWritten, Marked;
    var mid := BlobWritten(nvs, r);
    var side := if Marked(nvs, r.id) then Saved(nvs, r) else nvs;
    forall id: nat | 1 <= id <= MAX_GROUPS
      ensures Visible(mid, id) == Visible(side, id)
    {
      BlobWrittenVisible(nvs, r, id);
    }
    SameGroups(mid, side);
  }

  lemma DeleteIsAtomic(nvs: Nvs, e: nat)
    requires IsSlot(e)
    ensures Listing(BlobErased(nvs, e)) == Listing(Deleted(nvs, e))
    ensures Groups(BlobErased(nvs, e)) == Groups(Deleted(nvs, e))
  {
    hide Visible, Deleted, BlobErased;
    forall id: nat | 1 <= id <= MAX_GROUPS
      ensures Visible(BlobErased(nvs, e), id) == Visible(Deleted(nvs, e), id)
    {
      DeletedVisible(nvs, e, id);
    }
    SameGroups(BlobErased(nvs, e), Deleted(nvs, e));
  }

  // ---- Allocation ----------------------------------------------------------

  /** The lowest id from `i` + 1 on whose bit is clear, 0 if there is none. */
  function FreeFrom(w: bv32, i: nat): (id: nat)
    requires i <= MAX_GROUPS
    ensures id == 0 || (i < id <= MAX_GROUPS && !Bit(w, id - 1))
    ensures forall k :: i <= k < (if id == 0 then MAX_GROUPS else id - 1) ==> Bit(w, k)
    decreases MAX_GROUPS - i
  {
    if i == MAX_GROUPS then 0 else if !Bit(w, i) then i + 1 else FreeFrom(w, i + 1)
  }

  function NextId(nvs: Nvs): nat {
    FreeFrom(Bmp(nvs), 0)
  }

  /** grp_create never picks a listed group's id, and picks none only when all
      32 bits are set. */
  lemma NextIdIsFree(nvs: Nvs)
    ensures var id := NextId(nvs);
            if id == 0 then forall k :: 1 <= k <= MAX_GROUPS ==> Marked(nvs, k)
            else IsSlot(id) && !Marked(nvs, id) && id !in Groups(nvs)
                 && forall k :: 1 <= k < id ==> Marked(nvs, k)
  {
    hide Bit, Bmp, Groups;
    var id := NextId(nvs);
    forall k | 1 <= k <= MAX_GROUPS && (id == 0 || k < id)
      ensures Marked(nvs, k)
    {
      assert Bit(Bmp(nvs), k - 1);
    }
    if id != 0 { GroupAt(nvs, id); }
  }
}
