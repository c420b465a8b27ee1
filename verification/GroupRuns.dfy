// Runs of the group store without power failures refine a plain finite map.
module GroupRuns {
  import opened Bytes
  import opened GroupStore
  import opened GroupFlash

  datatype Cmd = Save(r: Record) | Create(r: Record) | Delete(id: U16)

  /** The flash after one operation: what the methods of GroupFlash establish. */
  function Exec(nvs: Nvs, cmd: Cmd): Nvs {
    match cmd
    case Save(r) => if IsSlot(r.id) then Saved(nvs, r) else nvs
    case Create(r) =>
      var id := NextId(nvs);
      if id == 0 then nvs else Saved(nvs, r.(id := id))
    case Delete(id) => if IsSlot(id) then Deleted(nvs, id) else nvs
  }

  function Run(nvs: Nvs, cmds: seq<Cmd>): Nvs
    decreases |cmds|
  {
    if cmds == [] then nvs else Run(Exec(nvs, cmds[0]), cmds[1..])
  }

  // ---- The map -------------------------------------------------------------

  type Model = map<nat, Record>

  /** The lowest id above `i` that is not taken, 0 if there is none. */
  function LowestFree(taken: set<nat>, i: nat): (id: nat)
    requires i <= MAX_GROUPS
    ensures id == 0 || (i < id <= MAX_GROUPS && id !in taken)
    ensures forall k :: i < k <= MAX_GROUPS && (id == 0 || k < id) ==> k in taken
    decreases MAX_GROUPS - i
  {
    if i == MAX_GROUPS then 0 else if i + 1 !in taken then i + 1 else LowestFree(taken, i + 1)
  }

  function ModelExec(m: Model, cmd: Cmd): Model {
    match cmd
    case Save(r) => if IsSlot(r.id) then m[r.id as nat := Clamp(r)] else m
    case Create(r) =>
      var id := LowestFree(m.Keys, 0);
      if id == 0 then m else m[id := Clamp(r.(id := id))]
    case Delete(id) => if IsSlot(id) then m - {id as nat} else m
  }

  function ModelRun(m: Model, cmds: seq<Cmd>): Model
    decreases |cmds|
  {
    if cmds == [] then m else ModelRun(ModelExec(m, cmds[0]), cmds[1..])
  }

  // ---- Refinement ----------------------------------------------------------

  lemma SavedConsistent(nvs: Nvs, r: Record)
    requires Consistent(nvs) && IsSlot(r.id)
    ensures Consistent(Saved(nvs, r))
  {
    hide BlobAt, Marked, BlobWritten, BitWritten;
    var m := BlobWritten(nvs, r);
    forall id: U16
      ensures BlobAt(Saved(nvs, r), id) == if id == r.id then Some(r) else BlobAt(nvs, id)
      ensures IsSlot(id) ==> (Marked(Saved(nvs, r), id) <==> id == r.id || Marked(nvs, id))
    {
      BlobWrittenEffect(nvs, r, id);
      BitWrittenEffect(m, r.id, id);
      SameWord(nvs, m, id);
    }
  }

  lemma DeletedConsistent(nvs: Nvs, e: U16)
    requires Consistent(nvs) && IsSlot(e)
    ensures Consistent(Deleted(nvs, e))
  {
    hide BlobAt, Marked, BlobErased, BitErased;
    var m := BlobErased(nvs, e);
    forall id: U16
      ensures BlobAt(Deleted(nvs, e), id) == if id == e then None else BlobAt(nvs, id)
      ensures IsSlot(id) ==> (Marked(Deleted(nvs, e), id) <==> id != e && Marked(nvs, id))
    {
      BlobErasedEffect(nvs, e, id);
      BitErasedEffect(m, e, id);
      SameWord(nvs, m, id);
    }
  }

  lemma SameWord(a: Nvs, b: Nvs, id: U16)
    requires Bmp(a) == Bmp(b)
    ensures IsSlot(id) ==> (Marked(a, id) <==> Marked(b, id))
  {
  }

  /** The map holds an id exactly when its bit is set. */
  lemma MarkedIsGroup(nvs: Nvs, id: nat)
    requires Consistent(nvs) && IsSlot(id)
    ensures Marked(nvs, id) <==> id in Groups(nvs)
    ensures id in Groups(nvs) ==> Found(nvs, id).Some? && Groups(nvs)[id] == Clamp(Found(nvs, id).value)
  {
    hide Marked, BlobAt, Groups;
    GroupAt(nvs, id);
  }

  lemma NextIdIsLowestFree(nvs: Nvs)
    requires Consistent(nvs)
    ensures NextId(nvs) == LowestFree(Groups(nvs).Keys, 0)
  {
    hide Consistent, Groups, NextId, Marked;
    NextIdIsFree(nvs);
    var a, b := NextId(nvs), LowestFree(Groups(nvs).Keys, 0);
    if a != 0 { MarkedIsGroup(nvs, a); }
    if b != 0 { MarkedIsGroup(nvs, b); }
  }

  lemma ExecRefines(nvs: Nvs, cmd: Cmd)
    requires Consistent(nvs)
    ensures Consistent(Exec(nvs, cmd))
    ensures Groups(Exec(nvs, cmd)) == ModelExec(Groups(nvs), cmd)
  {
    hide Consistent, Groups, Saved, Deleted, NextId, LowestFree, Clamp;
    match cmd
    case Save(r) =>
      if IsSlot(r.id) { SavedConsistent(nvs, r); SavedGroups(nvs, r); }
    case Create(r) =>
      NextIdIsLowestFree(nvs);
      var id := NextId(nvs);
      if id != 0 {
        SavedConsistent(nvs, r.(id := id));
        SavedGroups(nvs, r.(id := id));
      }
    case Delete(id) =>
      if IsSlot(id) { DeletedConsistent(nvs, id); DeletedGroups(nvs, id); }
  }

  /** Every run of the store is a run of the map. */
  lemma {:induction false} RunRefines(nvs: Nvs, cmds: seq<Cmd>)
    requires Consistent(nvs)
    ensures Consistent(Run(nvs, cmds))
    ensures Groups(Run(nvs, cmds)) == ModelRun(Groups(nvs), cmds)
    decreases |cmds|
  {
    hide Consistent, Groups, Exec, ModelExec;
    if cmds != [] {
      ExecRefines(nvs, cmds[0]);
      RunRefines(Exec(nvs, cmds[0]), cmds[1..]);
    }
  }

  lemma EmptyConsistent()
    ensures Consistent(map[]) && Groups(map[]) == map[]
  {
    hide Marked;
    NothingMarked();
  }

  lemma {:induction false} ModelKeys(m: Model, cmds: seq<Cmd>)
    requires forall id :: id in m ==> IsSlot(id)
    ensures forall id :: id in ModelRun(m, cmds) ==> IsSlot(id)
    decreases |cmds|
  {
    hide Clamp;
    if cmds != [] { ModelKeys(ModelExec(m, cmds[0]), cmds[1..]); }
  }

  /** After any run from an empty flash: grp_find and grp_load_all both answer
      from the map. */
  lemma {:induction false} FindIsLookup(cmds: seq<Cmd>, id: U16)
    ensures var nvs, m := Run(map[], cmds), ModelRun(map[], cmds);
            && (Found(nvs, id).Some? <==> id as nat in m)
            && (Found(nvs, id).Some? ==> m[id as nat] == Clamp(Found(nvs, id).value))
            && (Found(nvs, id).Some? && Found(nvs, id).value.memberCount <= 16 ==> m[id as nat] == Found(nvs, id).value)
            && Groups(nvs) == m
  {
    hide Consistent, Groups, ModelRun, Run, Found;
    EmptyConsistent();
    RunRefines(map[], cmds);
    var nvs := Run(map[], cmds);
    ModelKeys(map[], cmds);
    if IsSlot(id) {
      MarkedIsGroup(nvs, id);
      ConsistentSlot(nvs, id);
    } else {
      ConsistentOutside(nvs, id);
    }
  }

  lemma ConsistentSlot(nvs: Nvs, id: nat)
    requires Consistent(nvs) && IsSlot(id)
    ensures Marked(nvs, id) <==> Found(nvs, id).Some?
  {
  }

  lemma ConsistentOutside(nvs: Nvs, id: U16)
    requires Consistent(nvs) && !IsSlot(id)
    ensures Found(nvs, id).None?
  {
  }

  // ---- Capacity ------------------------------------------------------------

  /** The ids 1 to n. */
  function Slots(n: nat): (r: set<nat>)
    ensures |r| == n
    ensures forall id :: id in r <==> 1 <= id <= n
  {
    if n == 0 then {} else Slots(n - 1) + {n}
  }

  /** grp_create takes the lowest free id and fails only at 32 groups. */
  lemma {:induction false} CreateFailsOnlyWhenFull(cmds: seq<Cmd>)
    ensures var nvs, m := Run(map[], cmds), ModelRun(map[], cmds);
            && NextId(nvs) == LowestFree(m.Keys, 0) <= 32
            && (NextId(nvs) == 0 <==> |m| == 32)
  {
    hide Consistent, Groups, ModelRun, Run, NextId;
    EmptyConsistent();
    RunRefines(map[], cmds);
    NextIdIsLowestFree(Run(map[], cmds));
    var m := ModelRun(map[], cmds);
    ModelKeys(map[], cmds);
    var free := LowestFree(m.Keys, 0);
    var all := Slots(MAX_GROUPS);
    assert m.Keys <= all;
    if free == 0 {
      assert m.Keys == all;
    } else {
      SubsetSmaller(m.Keys, all, free);
    }
    assert |m| == |m.Keys|;
  }

  lemma SubsetSmaller(a: set<nat>, b: set<nat>, x: nat)
    requires a <= b && x in b && x !in a
    ensures |a| < |b|
  {
    Contained(a, b - {x});
  }

  lemma {:induction false} Contained(a: set<nat>, b: set<nat>)
    requires a <= b
    ensures |a| <= |b|
  {
    if a != {} {
      var y :| y in a;
      Contained(a - {y}, b - {y});
    }
  }
}
