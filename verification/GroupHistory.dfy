// What the serial executions of GroupTasks mean: each operation is the one of
// GroupFlash, ids are not handed out twice, and a listing is never torn.
module GroupHistory {
  import opened Bytes
  import opened GroupStore
  import opened GroupFlash
  import opened GroupTasks
  import GroupRuns

  // ---- Operations alone ----------------------------------------------------

  lemma {:induction false} AloneCons(c: Instr, rest: seq<Instr>, l: Local, s: Shared)
    requires c != LeaveIfNone
    ensures Alone([c] + rest, l, s) == Alone(rest, Effect(c, l, s).0, Effect(c, l, s).1)
  {
    hide Effect;
    assert ([c] + rest)[1..] == rest;
    AloneUnfold([c] + rest, l, s);
  }

  lemma SaveBodyAlone(after: seq<Instr>, l: Local, s: Shared) returns (l': Local)
    requires IsSlot(l.rec.id)
    ensures Alone(SAVE_BODY + after, l, s) == Alone(after, l', s.(nvs := Saved(s.nvs, l.rec)))
    ensures l' == l.(bmp := l'.bmp, ok := true)
  {
    hide Alone, BlobWritten, Bmp, Mask, With;
    var s1 := s.(nvs := BlobWritten(s.nvs, l.rec));
    var l1 := l.(bmp := Bmp(s1.nvs));
    l' := l1.(ok := true);
    var s2 := s.(nvs := Saved(s.nvs, l.rec));
    var c4, c3 := [Give] + after, [SetBit] + ([Give] + after);
    var c2 := [ReadBmp] + c3;
    var c1 := [WriteBlob] + c2;
    assert SAVE_BODY + after == [Take] + c1;
    AloneCons(Take, c1, l, s);
    AloneCons(WriteBlob, c2, l, s);
    AloneCons(ReadBmp, c3, l, s1);
    AloneCons(SetBit, c4, l1, s1);
    AloneCons(Give, after, l', s2);
  }

  /** grp_create alone. */
  lemma AtomicCreate(r: Record, s: Shared)
    ensures var (l', s') := Atomic(Create(r), s);
            var id := NextId(s.nvs);
            && l'.rec == r.(id := id)
            && (l'.ok <==> id != 0)
            && s' == if id == 0 then s else s.(nvs := Saved(s.nvs, l'.rec))
  {
    hide Alone, Bmp, FreeFrom, Saved, SAVE_BODY, Bit;
    var l := Init(Create(r));
    var body := SAVE_BODY + [Give];
    var c4 := [Give] + ([LeaveIfNone] + body);
    var c3 := [PickId] + c4;
    var c2 := [ReadBmp] + c3;
    var c1 := [Take] + c2;
    assert Code(Create(r)) == [Take] + c1;
    AloneCons(Take, c1, l, s);
    AloneCons(Take, c2, l, s);
    AloneCons(ReadBmp, c3, l, s);
    var l1 := l.(bmp := Bmp(s.nvs));
    AloneCons(PickId, c4, l1, s);
    var l2 := l1.(rec := r.(id := FreeFrom(l1.bmp, 0)));
    AloneCons(Give, [LeaveIfNone] + body, l2, s);
    AloneUnfold([LeaveIfNone] + body, l2, s);
    assert ([LeaveIfNone] + body)[1..] == body;
    var l3 := l2;
    var s3 := s;
    if l2.rec.id == 0 {
      assert Rest([LeaveIfNone] + body, l2) == [Give];
    } else {
      l3 := SaveBodyAlone([Give], l2, s);
      s3 := s.(nvs := Saved(s.nvs, l2.rec));
    }
    assert [Give] + [] == [Give];
    AloneCons(Give, [], l3, s3);
    AloneNothing(l3, s3);
  }

  /** grp_save alone. */
  lemma AtomicSave(r: Record, s: Shared)
    ensures var (l', s') := Atomic(Save(r), s);
            && (l'.ok <==> IsSlot(r.id))
            && s' == if IsSlot(r.id) then s.(nvs := Saved(s.nvs, r)) else s
  {
    hide Alone, Saved, SAVE_BODY;
    if IsSlot(r.id) {
      var l' := SaveBodyAlone([], Init(Save(r)), s);
      assert SAVE_BODY + [] == SAVE_BODY;
      AloneNothing(l', s.(nvs := Saved(s.nvs, r)));
    } else {
      AloneNothing(Init(Save(r)), s);
    }
  }

  /** grp_delete alone. */
  lemma AtomicDelete(id: U16, s: Shared)
    ensures var (l', s') := Atomic(Delete(id), s);
            && (l'.ok <==> IsSlot(id))
            && s' == if IsSlot(id) then s.(nvs := Deleted(s.nvs, id)) else s
  {
    hide Alone, BlobErased, Bmp, Mask, Without;
    var l := Init(Delete(id));
    if IsSlot(id) {
      var s1 := s.(nvs := BlobErased(s.nvs, id));
      var l1 := l.(bmp := Bmp(s1.nvs));
      var s2 := s.(nvs := Deleted(s.nvs, id));
      assert [Take, EraseBlob, ReadBmp, ClearBit, Give] ==
             [Take] + ([EraseBlob] + ([ReadBmp] + ([ClearBit] + ([Give] + []))));
      AloneCons(Take, [EraseBlob] + ([ReadBmp] + ([ClearBit] + ([Give] + []))), l, s);
      AloneCons(EraseBlob, [ReadBmp] + ([ClearBit] + ([Give] + [])), l, s);
      AloneCons(ReadBmp, [ClearBit] + ([Give] + []), l, s1);
      AloneCons(ClearBit, [Give] + [], l1, s1);
      AloneCons(Give, [], l1.(ok := true), s2);
      AloneNothing(l1.(ok := true), s2);
    } else {
      AloneNothing(l, s);
    }
  }

  lemma SlotRecordIsVisible(nvs: Nvs, i: nat)
    requires i < MAX_GROUPS
    ensures ListingUpTo(nvs, i + 1) ==
            ListingUpTo(nvs, i) +
            (if SlotRecord(nvs, Bmp(nvs), i).Some? then [SlotRecord(nvs, Bmp(nvs), i).value] else [])
    ensures |ListingUpTo(nvs, i)| <= i
  {
    hide Bit, Bmp, BlobAt, Clamp;
    ListingStep(nvs, i);
    ListingSize(nvs, i);
  }

  lemma {:induction false} ListingSize(nvs: Nvs, n: nat)
    requires n <= MAX_GROUPS
    ensures |ListingUpTo(nvs, n)| <= n
  {
    hide Visible;
    if n > 0 { ListingSize(nvs, n - 1); }
  }

  /** The first `max` groups among the first `n` slots. */
  function FirstGroups(nvs: Nvs, n: nat, max: nat): seq<Record>
    requires n <= MAX_GROUPS
  {
    ListingUpTo(nvs, n)[..Min(max, |ListingUpTo(nvs, n)|)]
  }

  lemma FirstOfLonger(a: seq<Record>, r: Record, max: nat)
    ensures var first := a[..Min(max, |a|)];
            (a + [r])[..Min(max, |a| + 1)] == if |first| < max then first + [r] else first
  {
  }

  lemma {:induction false} LoadLoopAlone(i: nat, after: seq<Instr>, l: Local, s: Shared)
    requires i <= MAX_GROUPS
    requires l.bmp == Bmp(s.nvs) && l.out == FirstGroups(s.nvs, i, l.max)
    ensures Alone(LoadLoop(i) + after, l, s) == Alone(after, l.(out := FirstGroups(s.nvs, MAX_GROUPS, l.max)), s)
    decreases MAX_GROUPS - i
  {
    hide Alone, Bmp, SlotRecord, ListingUpTo;
    if i == MAX_GROUPS {
      assert [] + after == after;
    } else {
      assert LoadLoop(i) + after == [LoadSlot(i)] + (LoadLoop(i + 1) + after);
      AloneCons(LoadSlot(i), LoadLoop(i + 1) + after, l, s);
      SlotRecordIsVisible(s.nvs, i);
      var l' := l.(out := FirstGroups(s.nvs, i + 1, l.max));
      if SlotRecord(s.nvs, l.bmp, i).Some? {
        FirstOfLonger(ListingUpTo(s.nvs, i), SlotRecord(s.nvs, l.bmp, i).value, l.max);
      } else {
        assert ListingUpTo(s.nvs, i) + [] == ListingUpTo(s.nvs, i);
      }
      assert Effect(LoadSlot(i), l, s) == (l', s);
      LoadLoopAlone(i + 1, after, l', s);
    }
  }

  /** grp_load_all alone: the first `max` groups. */
  lemma AtomicLoad(max: nat, s: Shared)
    ensures var (l', s') := Atomic(Load(max), s);
            l'.out == Listing(s.nvs)[..Min(max, |Listing(s.nvs)|)] && s' == s
  {
    hide Alone, Bmp, ListingUpTo, LoadLoop;
    var l := Init(Load(max));
    var c := [ReadBmp] + (LoadLoop(0) + [Give]);
    assert Code(Load(max)) == [Take] + c;
    AloneCons(Take, c, l, s);
    AloneCons(ReadBmp, LoadLoop(0) + [Give], l, s);
    var l1 := l.(bmp := Bmp(s.nvs));
    ListingStart(s.nvs);
    LoadLoopAlone(0, [Give], l1, s);
    var l2 := l1.(out := FirstGroups(s.nvs, MAX_GROUPS, max));
    assert [Give] + [] == [Give];
    AloneCons(Give, [], l2, s);
    AloneNothing(l2, s);
  }

  lemma {:induction false} FillLoopAlone(i: nat, after: seq<Instr>, l: Local, s: Shared) returns (l': Local, s': Shared)
    requires i <= MAX_GROUPS && |s.all| == MAX_GROUPS
    requires l.bmp == Bmp(s.nvs) && l.count == |ListingUpTo(s.nvs, i)| && l.count <= i
    requires s.all[..l.count] == ListingUpTo(s.nvs, i)
    ensures Alone(FillLoop(i) + after, l, s) == Alone(after, l', s')
    ensures s'.nvs == s.nvs && |s'.all| == MAX_GROUPS
    ensures l' == l.(count := |Listing(s.nvs)|) && l'.count <= MAX_GROUPS
    ensures s'.all[..l'.count] == Listing(s.nvs)
    decreases MAX_GROUPS - i
  {
    hide Alone, Bmp, SlotRecord, ListingUpTo;
    if i == MAX_GROUPS {
      assert [] + after == after;
      l', s' := l, s;
    } else {
      assert FillLoop(i) + after == [FillSlot(i)] + (FillLoop(i + 1) + after);
      AloneCons(FillSlot(i), FillLoop(i + 1) + after, l, s);
      SlotRecordIsVisible(s.nvs, i);
      var (l1, s1) := Effect(FillSlot(i), l, s);
      assert s1.all[..l1.count] == ListingUpTo(s.nvs, i + 1);
      l', s' := FillLoopAlone(i + 1, after, l1, s1);
    }
  }

  lemma {:induction false} ReadLoopAlone(j: nat, after: seq<Instr>, l: Local, s: Shared)
    requires j <= MAX_GROUPS && l.count <= MAX_GROUPS == |s.all|
    requires l.out == s.all[..Min(j, l.count)]
    ensures Alone(ReadLoop(j) + after, l, s) == Alone(after, l.(out := s.all[..l.count]), s)
    decreases MAX_GROUPS - j
  {
    hide Alone;
    if j == MAX_GROUPS {
      assert [] + after == after;
    } else {
      assert ReadLoop(j) + after == [ReadEntry(j)] + (ReadLoop(j + 1) + after);
      AloneCons(ReadEntry(j), ReadLoop(j + 1) + after, l, s);
      var l' := l.(out := s.all[..Min(j + 1, l.count)]);
      if j < l.count { assert s.all[..j] + [s.all[j]] == s.all[..j + 1]; }
      assert Effect(ReadEntry(j), l, s) == (l', s);
      ReadLoopAlone(j + 1, after, l', s);
    }
  }

  /** group_list_json alone: the entries it reads back from the static buffer are
      exactly the listing it loaded. */
  lemma AtomicList(s: Shared)
    requires |s.all| == MAX_GROUPS
    ensures var (l', s') := Atomic(List, s);
            l'.out == Listing(s.nvs) && s'.nvs == s.nvs && |s'.all| == MAX_GROUPS
  {
    hide Alone, Bmp, ListingUpTo, FillLoop, ReadLoop;
    var l := Init(List);
    var read := ReadLoop(0) + [Give];
    var c2 := [ReadBmp] + (FillLoop(0) + ([Give] + read));
    assert Code(List) == [Take] + ([Take] + c2);
    AloneCons(Take, [Take] + c2, l, s);
    AloneCons(Take, c2, l, s);
    AloneCons(ReadBmp, FillLoop(0) + ([Give] + read), l, s);
    var l1 := l.(bmp := Bmp(s.nvs));
    ListingStart(s.nvs);
    var l2, s2 := FillLoopAlone(0, [Give] + read, l1, s);
    AloneCons(Give, read, l2, s2);
    ReadLoopAlone(0, [Give], l2, s2);
    var l3 := l2.(out := s2.all[..l2.count]);
    assert [Give] + [] == [Give];
    AloneCons(Give, [], l3, s2);
    AloneNothing(l3, s2);
  }

  // ---- Histories -----------------------------------------------------------

  /** The shared state before the k-th finished operation. */
  function Before(sh: Shared, log: seq<Done>, k: nat): Shared
    requires k <= |log|
  {
    Serial(sh, log[..k])
  }

  lemma BeforeStep(sh: Shared, log: seq<Done>, k: nat)
    requires k < |log| && Serializable(sh, log)
    ensures Atomic(log[k].op, Before(sh, log, k)) == (log[k].l, Before(sh, log, k + 1))
  {
    hide Atomic;
    assert log[..k + 1][..k] == log[..k];
    assert log[..k + 1][k] == log[k];
  }

  /** The flash writes of an operation, as a command of GroupRuns. */
  function Command(op: Op): Option<GroupRuns.Cmd> {
    match op
    case Create(r) => Some(GroupRuns.Create(r))
    case Save(r) => Some(GroupRuns.Save(r))
    case Delete(id) => Some(GroupRuns.Delete(id))
    case _ => None
  }

  /** A finished operation changed the flash like its sequential counterpart and
      left the size of the static buffer alone. */
  lemma OperationEffect(sh: Shared, log: seq<Done>, k: nat)
    requires k < |log| && Serializable(sh, log) && |Before(sh, log, k).all| == MAX_GROUPS
    ensures var before, after := Before(sh, log, k), Before(sh, log, k + 1);
            && |after.all| == MAX_GROUPS
            && var c := Command(log[k].op);
               after.nvs == if c.Some? then GroupRuns.Exec(before.nvs, c.value) else before.nvs
  {
    hide Atomic, Saved, Deleted, NextId;
    BeforeStep(sh, log, k);
    var s := Before(sh, log, k);
    match log[k].op
    case Create(r) => AtomicCreate(r, s);
    case Save(r) => AtomicSave(r, s);
    case Delete(id) => AtomicDelete(id, s);
    case Load(max) => AtomicLoad(max, s);
    case List => AtomicList(s);
  }

  lemma {:induction false} BufferSize(sh: Shared, log: seq<Done>, k: nat)
    requires k <= |log| && Serializable(sh, log) && |sh.all| == MAX_GROUPS
    ensures |Before(sh, log, k).all| == MAX_GROUPS
  {
    hide Atomic, Serializable;
    if k > 0 {
      BufferSize(sh, log, k - 1);
      OperationEffect(sh, log, k - 1);
    } else {
      assert log[..0] == [];
    }
  }

  /** A create that succeeded. */
  predicate Created(d: Done, id: nat) {
    d.op.Create? && d.l.ok && d.l.rec.id == id
  }

  /** No create overwrites a listed group: its id was free, and it adds exactly
      its own record to the map. */
  lemma CreateOverwritesNothing(sh: Shared, log: seq<Done>, k: nat)
    requires k < |log| && Serializable(sh, log) && |sh.all| == MAX_GROUPS
    requires log[k].op.Create? && log[k].l.ok
    ensures var id, before, after := log[k].l.rec.id, Before(sh, log, k).nvs, Before(sh, log, k + 1).nvs;
            && IsSlot(id) && !Marked(before, id) && id as nat !in Groups(before)
            && Groups(after) == Groups(before)[id as nat := Clamp(log[k].op.r.(id := id))]
  {
    hide Atomic, Serializable, Saved, NextId, Groups, Marked, Clamp;
    BeforeStep(sh, log, k);
    var s := Before(sh, log, k);
    AtomicCreate(log[k].op.r, s);
    NextIdIsFree(s.nvs);
    SavedGroups(s.nvs, log[k].l.rec);
  }

  /** Only a delete of an id clears its bit. */
  lemma BitKept(nvs: Nvs, c: GroupRuns.Cmd, id: nat)
    requires IsSlot(id) && Marked(nvs, id) && !(c.Delete? && c.id == id)
    ensures Marked(GroupRuns.Exec(nvs, c), id)
  {
    hide Bmp, Bit, BlobWritten, BlobErased, BitWritten, BitErased, NextId, Key;
    match c
    case Save(r) =>
      if IsSlot(r.id) { SavedMarks(nvs, r, id); }
    case Create(r) =>
      NextIdIsFree(nvs);
      if NextId(nvs) != 0 { SavedMarks(nvs, r.(id := NextId(nvs)), id); }
    case Delete(e) =>
      if IsSlot(e) {
        BlobErasedEffect(nvs, e, id);
        BitErasedEffect(BlobErased(nvs, e), e, id);
      }
  }

  lemma SavedMarks(nvs: Nvs, r: Record, id: nat)
    requires IsSlot(id) && IsSlot(r.id)
    ensures Marked(Saved(nvs, r), id) <==> id == r.id || Marked(nvs, id)
  {
    hide Bmp, Bit, BlobWritten, BitWritten;
    BlobWrittenEffect(nvs, r, id);
    BitWrittenEffect(BlobWritten(nvs, r), r.id, id);
  }

  /** Without a delete of `id` in between its bit stays set. */
  lemma {:induction false} BitKeptOver(sh: Shared, log: seq<Done>, i: nat, j: nat, id: nat)
    requires i <= j <= |log| && Serializable(sh, log) && |sh.all| == MAX_GROUPS
    requires IsSlot(id) && Marked(Before(sh, log, i).nvs, id)
    requires forall m :: i <= m < j ==> log[m].op != Delete(id)
    ensures Marked(Before(sh, log, j).nvs, id)
    decreases j - i
  {
    hide Serializable, Before, Marked, GroupRuns.Exec;
    if i < j {
      BufferSize(sh, log, i);
      OperationEffect(sh, log, i);
      var c := Command(log[i].op);
      if c.Some? { BitKept(Before(sh, log, i).nvs, c.value, id); }
      BitKeptOver(sh, log, i + 1, j, id);
    }
  }

  /** Two successful creates get the same id only if that id was deleted between
      them, however tasks interleave. */
  lemma IdsAreNotReused(sh: Shared, log: seq<Done>, i: nat, j: nat, id: nat)
    requires i < j < |log| && Serializable(sh, log) && |sh.all| == MAX_GROUPS
    requires Created(log[i], id) && Created(log[j], id)
    ensures exists m :: i < m < j && log[m].op == Delete(id)
  {
    hide Serializable, Before, Marked, Saved, Clamp, Groups;
    CreateOverwritesNothing(sh, log, i);
    CreateOverwritesNothing(sh, log, j);
    CreateMarks(sh, log, i);
    if forall m :: i < m < j ==> log[m].op != Delete(id) {
      BitKeptOver(sh, log, i + 1, j, id);
      assert false;
    }
  }

  /** With the delete the id does come back: from an empty flash create, delete,
      create gives id 1 twice. */
  lemma DeletedIdComesBack(r: Record, all: seq<Record>) returns (log: seq<Done>)
    ensures Serializable(Shared(map[], all), log) && |log| == 3
    ensures Created(log[0], 1) && log[1].op == Delete(1) && Created(log[2], 1)
  {
    hide Atomic, Serializable, Serial, Consistent, Groups, NextId, Saved, Deleted, Clamp;
    var s0 := Shared(map[], all);
    var s1, s2 := Atomic(Create(r), s0).1, Atomic(Delete(1), Atomic(Create(r), s0).1).1;
    var a := Done(Create(r), Atomic(Create(r), s0).0);
    var b := Done(Delete(1), Atomic(Delete(1), s1).0);
    var c := Done(Create(r), Atomic(Create(r), s2).0);
    GroupRuns.EmptyConsistent();
    GroupRuns.NextIdIsLowestFree(map[]);
    AtomicCreate(r, s0);
    GroupRuns.ExecRefines(map[], GroupRuns.Create(r));
    AtomicDelete(1, s1);
    GroupRuns.ExecRefines(s1.nvs, GroupRuns.Delete(1));
    GroupRuns.NextIdIsLowestFree(s2.nvs);
    AtomicCreate(r, s2);
    NothingYet(s0);
    SerialAppend(s0, [], a);
    SerialAppend(s0, [] + [a], b);
    SerialAppend(s0, [] + [a] + [b], c);
    log := [] + [a] + [b] + [c];
  }

  lemma {:induction false} NothingYet(sh: Shared)
    ensures Serializable(sh, []) && Serial(sh, []) == sh
  {
  }

  lemma CreateMarks(sh: Shared, log: seq<Done>, k: nat)
    requires k < |log| && Serializable(sh, log)
    requires log[k].op.Create? && log[k].l.ok
    ensures IsSlot(log[k].l.rec.id) && Marked(Before(sh, log, k + 1).nvs, log[k].l.rec.id)
  {
    hide Serializable, Marked, Saved, Atomic, NextId;
    BeforeStep(sh, log, k);
    var s := Before(sh, log, k);
    AtomicCreate(log[k].op.r, s);
    NextIdIsFree(s.nvs);
    SavedMarks(s.nvs, log[k].l.rec, log[k].l.rec.id);
  }

  /** A listing is never torn: every entry read back from the shared buffer is
      the one loaded, for whatever the other tasks did meanwhile. */
  lemma ListingsAreNotTorn(sh: Shared, log: seq<Done>, k: nat)
    requires k < |log| && Serializable(sh, log) && |sh.all| == MAX_GROUPS
    requires log[k].op == List
    ensures log[k].l.out == Listing(Before(sh, log, k).nvs)
    ensures Before(sh, log, k + 1).nvs == Before(sh, log, k).nvs
  {
    hide Atomic, Serializable, Listing;
    BufferSize(sh, log, k);
    BeforeStep(sh, log, k);
    AtomicList(Before(sh, log, k));
  }

  /** The commands of a log in order. */
  function Commands(log: seq<Done>): seq<GroupRuns.Cmd>
    decreases |log|
  {
    if log == [] then []
    else
      var c := Command(log[|log| - 1].op);
      Commands(log[..|log| - 1]) + (if c.Some? then [c.value] else [])
  }

  lemma {:induction false} RunAppend(nvs: Nvs, cmds: seq<GroupRuns.Cmd>, c: GroupRuns.Cmd)
    ensures GroupRuns.Run(nvs, cmds + [c]) == GroupRuns.Exec(GroupRuns.Run(nvs, cmds), c)
    decreases |cmds|
  {
    hide GroupRuns.Exec;
    var all := cmds + [c];
    if cmds == [] {
      assert all[1..] == [];
    } else {
      assert all[1..] == cmds[1..] + [c];
      RunAppend(GroupRuns.Exec(nvs, cmds[0]), cmds[1..], c);
    }
  }

  lemma {:induction false} HistoryRuns(sh: Shared, log: seq<Done>, k: nat)
    requires k <= |log| && Serializable(sh, log) && |sh.all| == MAX_GROUPS
    ensures Before(sh, log, k).nvs == GroupRuns.Run(sh.nvs, Commands(log[..k]))
  {
    hide Serializable, Atomic, GroupRuns.Exec;
    if k > 0 {
      HistoryRuns(sh, log, k - 1);
      BufferSize(sh, log, k - 1);
      OperationEffect(sh, log, k - 1);
      assert log[..k][..k - 1] == log[..k - 1];
      var c := Command(log[k - 1].op);
      if c.Some? {
        RunAppend(sh.nvs, Commands(log[..k - 1]), c.value);
      } else {
        assert Commands(log[..k - 1]) + [] == Commands(log[..k - 1]);
      }
    } else {
      assert log[..0] == [];
    }
  }

  /** Any number of tasks, any interleaving, from an empty flash: whenever the
      mutex is free the store is the finite map that the finished operations
      make, in the order they released the mutex. */
  lemma {:induction false} TasksRefineTheMap(n: nat, all: seq<Record>, actions: seq<Action>)
    requires |all| == MAX_GROUPS
    ensures var sys := Run(Boot(n, Shared(map[], all)), actions);
            sys.owner.None? ==>
              Groups(sys.sh.nvs) == GroupRuns.ModelRun(map[], Commands(sys.log))
  {
    hide Run, Boot, Serializable, Serial, Groups, Consistent, GroupRuns.Run, GroupRuns.ModelRun;
    var sh := Shared(map[], all);
    var sys := Run(Boot(n, sh), actions);
    InterleavingsAreSerial(n, sh, actions);
    HistoryRuns(sh, sys.log, |sys.log|);
    assert sys.log[..|sys.log|] == sys.log;
    GroupRuns.EmptyConsistent();
    GroupRuns.RunRefines(map[], Commands(sys.log));
  }
}
