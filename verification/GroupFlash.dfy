// The operations of main/groups_store.cpp on the flash, with a ghost record of
// every content the flash has had: a power failure leaves one of them behind.
module GroupFlash {
  import opened Bytes
  import opened GroupStore

  /** A boot after any write since `from` lists the groups before or after, never
      a mixture. */
  ghost predicate CrashSafe(history: seq<Nvs>, from: nat, before: Nvs, after: Nvs) {
    forall k :: from <= k < |history| ==>
      Listing(history[k]) == Listing(before) || Listing(history[k]) == Listing(after)
  }

  class Store {
    var nvs: Nvs
    ghost var history: seq<Nvs>

    ghost predicate Valid()
      reads this
    {
      history != [] && history[|history| - 1] == nvs
    }

    constructor (nvs: Nvs)
      ensures Valid() && this.nvs == nvs && history == [nvs]
    {
      this.nvs, history := nvs, [nvs];
    }

    // The three flash writes; each is atomic.

    method SetBlob(key: string, r: Record)
      requires Valid()
      modifies this
      ensures Valid() && nvs == old(nvs)[key := Blob(r)] && history == old(history) + [nvs]
    {
      nvs := nvs[key := Blob(r)];
      history := history + [nvs];
    }

    method SetU32(key: string, w: bv32)
      requires Valid()
      modifies this
      ensures Valid() && nvs == old(nvs)[key := Word(w)] && history == old(history) + [nvs]
    {
      nvs := nvs[key := Word(w)];
      history := history + [nvs];
    }

    method EraseKey(key: string)
      requires Valid()
      modifies this
      ensures Valid() && nvs == old(nvs) - {key} && history == old(history) + [nvs]
    {
      nvs := nvs - {key};
      history := history + [nvs];
    }

    /** grp_next_id. */
    method NextFree() returns (id: U16)
      requires Valid()
      ensures id == NextId(nvs)
    {
      hide Bit, Bmp;
      var bmp := Bmp(nvs);
      for i := 0 to MAX_GROUPS
        invariant FreeFrom(bmp, i) == FreeFrom(bmp, 0)
      {
        if !Bit(bmp, i) { return i + 1; }
      }
      return 0;
    }

    /** grp_load_all: the first `max` groups of the listing. */
    method LoadAll(out: array<Record>, max: nat) returns (loaded: nat)
      requires Valid() && max <= out.Length
      modifies out
      ensures loaded == Min(max, |Listing(nvs)|)
      ensures out[..] == Listing(nvs)[..loaded] + old(out[loaded..])
      ensures forall k :: 0 <= k < loaded ==> IsStored(nvs, out[k])
    {
      hide Visible, Bit, Bmp, BlobAt, ListingUpTo, IsStored;
      var bmp := Bmp(nvs);
      loaded := 0;
      var i := 0;
      ListingStart(nvs);
      while i < MAX_GROUPS && loaded < max
        invariant i <= MAX_GROUPS && loaded <= max
        invariant out[..loaded] == ListingUpTo(nvs, i)
        invariant forall k :: loaded <= k < out.Length ==> out[k] == old(out[k])
      {
        ListingStep(nvs, i);
        i := i + 1;
        if Bit(bmp, i - 1) {
          var b := BlobAt(nvs, i);
          if b.Some? && b.value.id == i {
            var r := b.value;
            if r.memberCount > MAX_MEMBERS { r := r.(memberCount := MAX_MEMBERS); }
            ghost var before := out[..loaded];
            out[loaded] := r;
            loaded := loaded + 1;
            assert out[..loaded] == before + [r];
          }
        }
      }
      ListingPrefix(nvs, i, MAX_GROUPS);
      assert out[..] == out[..loaded] + old(out[loaded..]);
      ListedIsStored(nvs, MAX_GROUPS);
      assert forall k :: 0 <= k < loaded ==> out[k] == Listing(nvs)[k];
    }

    /** grp_save. */
    method Save(r: Record) returns (ok: bool)
      requires Valid()
      modifies this
      ensures Valid()
      ensures ok <==> 1 <= r.id <= 32
      ensures nvs == if ok then Saved(old(nvs), r) else old(nvs)
      ensures history == old(history) + if ok then [BlobWritten(old(nvs), r), nvs] else []
      ensures CrashSafe(history, |old(history)|, old(nvs), nvs)
    {
      hide Listing, Mask, Bmp, Key;
      if r.id == 0 || r.id > MAX_GROUPS { return false; }
      SaveIsAtomic(nvs, r);
      SetBlob(Key(r.id), r);
      var bmp := Bmp(nvs);
      bmp := With(bmp, Mask(r.id - 1));
      SetU32(BMP, bmp);
      return true;
    }

    /** grp_create: the new id goes into the record; 0 means that the table is full. */
    method Create(r: Record) returns (created: Record, ok: bool)
      requires Valid()
      modifies this
      ensures Valid()
      ensures created == r.(id := NextId(old(nvs)))
      ensures ok <==> NextId(old(nvs)) != 0
      ensures nvs == if ok then Saved(old(nvs), created) else old(nvs)
      ensures history == old(history) + if ok then [BlobWritten(old(nvs), created), nvs] else []
      ensures CrashSafe(history, |old(history)|, old(nvs), nvs)
    {
      hide Listing, Bmp;
      var id := NextFree();
      created := r.(id := id);
      if created.id == 0 { return created, false; }
      ok := Save(created);
    }

    /** grp_delete; deleting what is absent succeeds. */
    method Delete(id: U16) returns (ok: bool)
      requires Valid()
      modifies this
      ensures Valid()
      ensures ok <==> 1 <= id <= 32
      ensures nvs == if ok then Deleted(old(nvs), id) else old(nvs)
      ensures history == old(history) + if ok then [BlobErased(old(nvs), id), nvs] else []
      ensures CrashSafe(history, |old(history)|, old(nvs), nvs)
    {
      hide Listing, Mask, Bmp, Key;
      if id == 0 || id > MAX_GROUPS { return false; }
      DeleteIsAtomic(nvs, id);
      EraseKey(Key(id));
      var bmp := Bmp(nvs);
      bmp := Without(bmp, Mask(id - 1));
      SetU32(BMP, bmp);
      return true;
    }

    /** grp_find: reads the blob only, without the bitmap and without clamping. It
        knows every listed group, and on a consistent flash no other. */
    method Find(id: U16) returns (r: Option<Record>)
      requires Valid()
      ensures r == Found(nvs, id)
      ensures r.Some? ==> r.value.id == id
      ensures IsSlot(id) && id as nat in Groups(nvs) ==> r.Some? && Clamp(r.value) == Groups(nvs)[id as nat]
      ensures Consistent(nvs) ==> (r.Some? <==> id as nat in Groups(nvs))
    {
      hide BlobAt, Marked, Clamp, Groups;
      if IsSlot(id) { GroupAt(nvs, id); } else { OnlySlots(nvs, id); }
      var b := BlobAt(nvs, id);
      r := if b.Some? && b.value.id == id then b else None;
    }
  }

  function Found(nvs: Nvs, id: U16): Option<Record> {
    var b := BlobAt(nvs, id);
    if b.Some? && b.value.id == id then b else None
  }

  lemma {:induction false} ListingStart(nvs: Nvs)
    ensures ListingUpTo(nvs, 0) == []
  {
  }

  lemma ListingStep(nvs: Nvs, i: nat)
    requires i < MAX_GROUPS
    ensures var b, before := BlobAt(nvs, i + 1), ListingUpTo(nvs, i);
            ListingUpTo(nvs, i + 1) ==
            if Bit(Bmp(nvs), i) && b.Some? && b.value.id == i + 1 then before + [Clamp(b.value)] else before
  {
    hide BlobAt, Bit, Bmp, Clamp;
    assert ListingUpTo(nvs, i) + [] == ListingUpTo(nvs, i);
  }

  lemma {:induction false} ListingPrefix(nvs: Nvs, i: nat, n: nat)
    requires i <= n <= MAX_GROUPS
    ensures ListingUpTo(nvs, i) <= ListingUpTo(nvs, n)
  {
    hide Visible;
    if i < n { ListingPrefix(nvs, i, n - 1); }
  }

  /** A bit is set exactly when the slot's blob carries its id, and there are no
      blobs outside the 32 slots. */
  ghost predicate Consistent(nvs: Nvs) {
    && (forall id: nat :: 1 <= id <= MAX_GROUPS ==> (Marked(nvs, id) <==> Found(nvs, id).Some?))
    && (forall id: U16 :: !IsSlot(id) ==> Found(nvs, id).None?)
  }

  lemma OnlySlots(nvs: Nvs, id: nat)
    requires !IsSlot(id)
    ensures id !in Groups(nvs)
  {
  }

  // ---- grp_find against grp_load_all ---------------------------------------

  /** grp_find and grp_load_all agree on a slot exactly when it is not the case
      that a blob carries the id while its bit is clear: the state a power failure
      between the two writes of a first save leaves. */
  lemma AgreeUnlessUnmarked(nvs: Nvs, id: nat)
    requires IsSlot(id)
    ensures Visible(nvs, id) == (if Found(nvs, id).Some? then Some(Clamp(Found(nvs, id).value)) else None) <==>
            !(Found(nvs, id).Some? && !Marked(nvs, id))
  {
    hide BlobAt, Marked;
  }

  /** Such a state is reached by one interrupted create. */
  lemma FindCanShowAnUnlistedGroup(r: Record)
    ensures var crashed := BlobWritten(map[], r.(id := NextId(map[])));
            Listing(crashed) == [] && Found(crashed, 1) == Some(r.(id := 1))
  {
    hide Listing, BlobAt, BlobWritten, Marked, Bit, Mask;
    var nvs: Nvs := map[];
    NothingMarked();
    assert NextId(nvs) == 1;
    var new1 := r.(id := 1);
    SaveIsAtomic(nvs, new1);
    BlobWrittenEffect(nvs, new1, 1);
    EmptyListing(MAX_GROUPS);
    ListingOfEmpty();
  }

  lemma ListingOfEmpty()
    requires ListingUpTo(map[], MAX_GROUPS) == []
    ensures Listing(map[]) == []
  {
  }

  lemma NothingMarked()
    ensures forall id: nat :: 1 <= id <= MAX_GROUPS ==> !Marked(map[], id)
    ensures !Bit(Bmp(map[]), 0)
  {
    assert Bmp(map[]) == 0;
    forall id: nat | 1 <= id <= MAX_GROUPS
      ensures !Marked(map[], id)
    {
    }
  }

  lemma {:induction false} EmptyListing(n: nat)
    requires n <= MAX_GROUPS
    ensures ListingUpTo(map[], n) == []
  {
    hide Marked;
    NothingMarked();
    if n > 0 { EmptyListing(n - 1); }
  }
}
