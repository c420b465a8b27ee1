// Power failures while several tasks use the group store: whatever step any task
// has reached, the flash lists the groups of the finished operations, with or
// without the one operation that holds the mutex.
module GroupPower {
  import opened Bytes
  import opened GroupStore
  import opened GroupTasks
  import GroupHistory

  type Listed = map<nat, Record>

  /** Along the rest of a program the flash lists `a` or `b` at every point. */
  ghost predicate Between(code: seq<Instr>, l: Local, s: Shared, a: Listed, b: Listed)
    decreases |code|
  {
    && (Groups(s.nvs) == a || Groups(s.nvs) == b)
    && (code != [] ==> Between(Rest(code, l), Effect(code[0], l, s).0, Effect(code[0], l, s).1, a, b))
  }

  lemma {:induction false} BetweenNext(code: seq<Instr>, l: Local, s: Shared, a: Listed, b: Listed)
    requires Between(code, l, s, a, b) && code != []
    ensures Between(Rest(code, l), Effect(code[0], l, s).0, Effect(code[0], l, s).1, a, b)
  {
  }

  lemma {:induction false} BetweenHere(code: seq<Instr>, l: Local, s: Shared, a: Listed, b: Listed)
    requires Between(code, l, s, a, b)
    ensures Groups(s.nvs) == a || Groups(s.nvs) == b
  {
  }

  /** A step in front that leaves the flash listing `a` or `b`. */
  lemma {:induction false} BetweenCons(c: Instr, rest: seq<Instr>, l: Local, s: Shared, a: Listed, b: Listed)
    requires c != LeaveIfNone && (Groups(s.nvs) == a || Groups(s.nvs) == b)
    requires Between(rest, Effect(c, l, s).0, Effect(c, l, s).1, a, b)
    ensures Between([c] + rest, l, s, a, b)
  {
    hide Groups, Effect;
    assert ([c] + rest)[1..] == rest;
  }

  // ---- Single operations ---------------------------------------------------

  predicate ReadsOnly(c: Instr) {
    c != WriteBlob && c != SetBit && c != EraseBlob && c != ClearBit
  }

  predicate AllRead(code: seq<Instr>) {
    forall k :: 0 <= k < |code| ==> ReadsOnly(code[k])
  }

  /** A program without flash writes never changes what is listed. */
  lemma {:induction false} ReadersBetween(code: seq<Instr>, l: Local, s: Shared)
    requires AllRead(code)
    ensures Between(code, l, s, Groups(s.nvs), Groups(s.nvs))
    decreases |code|
  {
    hide Groups;
    if code != [] {
      var (l', s') := Effect(code[0], l, s);
      assert ReadsOnly(code[0]) && s'.nvs == s.nvs;
      var rest := Rest(code, l);
      assert forall k :: 0 <= k < |rest| ==> rest[k] in code;
      assert AllRead(rest);
      ReadersBetween(rest, l', s');
    }
  }

  lemma TurnReads(c: Instr, loop: seq<Instr>)
    requires ReadsOnly(c) && AllRead(loop)
    ensures AllRead([c] + loop)
  {
    hide ReadsOnly;
  }

  lemma NoneReads()
    ensures AllRead([])
  {
  }

  lemma {:induction false} LoopsRead(i: nat)
    ensures AllRead(LoadLoop(i))
    ensures AllRead(FillLoop(i))
    ensures AllRead(ReadLoop(i))
    decreases MAX_GROUPS - i
  {
    hide AllRead;
    if i < MAX_GROUPS {
      LoopsRead(i + 1);
      TurnReads(LoadSlot(i), LoadLoop(i + 1));
      TurnReads(FillSlot(i), FillLoop(i + 1));
      TurnReads(ReadEntry(i), ReadLoop(i + 1));
    } else {
      NoneReads();
    }
  }

  lemma {:induction false} GivesBetween(code: seq<Instr>, l: Local, s: Shared, a: Listed, b: Listed)
    requires Groups(s.nvs) == a || Groups(s.nvs) == b
    requires forall k :: 0 <= k < |code| ==> code[k] == Give
    ensures Between(code, l, s, a, b)
    decreases |code|
  {
    hide Groups;
    if code != [] {
      assert code[0] == Give;
      GivesBetween(code[1..], l, s, a, b);
    }
  }

  /** The writes of a save and the releases behind them. */
  lemma {:induction false} SaveBetween(after: seq<Instr>, l: Local, s: Shared)
    requires IsSlot(l.rec.id) && forall k :: 0 <= k < |after| ==> after[k] == Give
    ensures Between(SAVE_BODY + after, l, s, Groups(s.nvs), Groups(Saved(s.nvs, l.rec)))
  {
    hide Groups, Saved, BlobWritten, Between, Marked;
    var a, b := Groups(s.nvs), Groups(Saved(s.nvs, l.rec));
    var s1 := s.(nvs := BlobWritten(s.nvs, l.rec));
    var l2 := l.(bmp := Bmp(s1.nvs));
    var s3 := s.(nvs := Saved(s.nvs, l.rec));
    SaveIsAtomic(s.nvs, l.rec);
    var end := [Give] + after;
    assert forall k :: 0 <= k < |end| ==> end[k] == Give;
    GivesBetween(end, l2.(ok := true), s3, a, b);
    SaveEffects(l, s);
    BetweenCons(SetBit, end, l2, s1, a, b);
    BetweenCons(ReadBmp, [SetBit] + end, l, s1, a, b);
    BetweenCons(WriteBlob, [ReadBmp] + ([SetBit] + end), l, s, a, b);
    BetweenCons(Take, [WriteBlob] + ([ReadBmp] + ([SetBit] + end)), l, s, a, b);
    assert SAVE_BODY + after == [Take] + ([WriteBlob] + ([ReadBmp] + ([SetBit] + end)));
  }

  lemma SaveEffects(l: Local, s: Shared)
    requires IsSlot(l.rec.id)
    ensures var s1 := s.(nvs := BlobWritten(s.nvs, l.rec)); var l2 := l.(bmp := Bmp(s1.nvs));
            && Effect(Take, l, s) == (l, s)
            && Effect(WriteBlob, l, s) == (l, s1)
            && Effect(ReadBmp, l, s1) == (l2, s1)
            && Effect(SetBit, l2, s1) == (l2.(ok := true), s.(nvs := Saved(s.nvs, l.rec)))
  {
    hide BlobWritten, Bmp, With, Mask;
  }

  lemma DeleteEffects(l: Local, s: Shared)
    requires IsSlot(l.rec.id)
    ensures var s1 := s.(nvs := BlobErased(s.nvs, l.rec.id)); var l2 := l.(bmp := Bmp(s1.nvs));
            && Effect(Take, l, s) == (l, s)
            && Effect(EraseBlob, l, s) == (l, s1)
            && Effect(ReadBmp, l, s1) == (l2, s1)
            && Effect(ClearBit, l2, s1) == (l2.(ok := true), s.(nvs := Deleted(s.nvs, l.rec.id)))
  {
    hide BlobErased, Bmp, Without, Mask;
  }

  lemma {:induction false} DeleteBetween(l: Local, s: Shared)
    requires IsSlot(l.rec.id)
    ensures Between([Take, EraseBlob, ReadBmp, ClearBit, Give], l, s, Groups(s.nvs), Groups(Deleted(s.nvs, l.rec.id)))
  {
    hide Groups, Deleted, BlobErased, Between;
    var a, b := Groups(s.nvs), Groups(Deleted(s.nvs, l.rec.id));
    var s1 := s.(nvs := BlobErased(s.nvs, l.rec.id));
    var l2 := l.(bmp := Bmp(s1.nvs));
    DeleteIsAtomic(s.nvs, l.rec.id);
    GivesBetween([Give], l2.(ok := true), s.(nvs := Deleted(s.nvs, l.rec.id)), a, b);
    DeleteEffects(l, s);
    BetweenCons(ClearBit, [Give], l2, s1, a, b);
    BetweenCons(ReadBmp, [ClearBit] + [Give], l, s1, a, b);
    BetweenCons(EraseBlob, [ReadBmp] + ([ClearBit] + [Give]), l, s, a, b);
    BetweenCons(Take, [EraseBlob] + ([ReadBmp] + ([ClearBit] + [Give])), l, s, a, b);
    assert [Take] + ([EraseBlob] + ([ReadBmp] + ([ClearBit] + [Give]))) == [Take, EraseBlob, ReadBmp, ClearBit, Give];
  }

  lemma {:induction false} CreateBetween(r: Record, s: Shared)
    ensures Between(Code(Create(r)), Init(Create(r)), s, Groups(s.nvs), Groups(Atomic(Create(r), s).1.nvs))
  {
    hide Groups, Saved, Between, NextId, FreeFrom;
    var a, b := Groups(s.nvs), Groups(Atomic(Create(r), s).1.nvs);
    var l := Init(Create(r));
    var l3 := l.(bmp := Bmp(s.nvs));
    NextIdIsFree(s.nvs);
    var l4 := l3.(rec := r.(id := NextId(s.nvs)));
    GroupHistory.AtomicCreate(r, s);
    PickEffects(r, s);
    var save := SAVE_BODY + [Give];
    LeaveBetween(save, l4, s, a, b);
    BetweenCons(Give, [LeaveIfNone] + save, l4, s, a, b);
    var c4 := [Give] + ([LeaveIfNone] + save);
    BetweenCons(PickId, c4, l3, s, a, b);
    BetweenCons(ReadBmp, [PickId] + c4, l, s, a, b);
    BetweenCons(Take, [ReadBmp] + ([PickId] + c4), l, s, a, b);
    BetweenCons(Take, [Take] + ([ReadBmp] + ([PickId] + c4)), l, s, a, b);
    assert Code(Create(r)) == [Take] + ([Take] + ([ReadBmp] + ([PickId] + c4)));
  }

  lemma PickEffects(r: Record, s: Shared)
    ensures var l := Init(Create(r)); var l3 := l.(bmp := Bmp(s.nvs));
            && Effect(Take, l, s) == (l, s)
            && Effect(ReadBmp, l, s) == (l3, s)
            && Effect(PickId, l3, s) == (l3.(rec := r.(id := NextId(s.nvs))), s)
            && Effect(Give, l3.(rec := r.(id := NextId(s.nvs))), s) == (l3.(rec := r.(id := NextId(s.nvs))), s)
  {
    hide Bmp, FreeFrom;
  }

  /** With no id free only the outer release is left; otherwise the save is. */
  lemma {:induction false} LeaveBetween(save: seq<Instr>, l: Local, s: Shared, a: Listed, b: Listed)
    requires save == SAVE_BODY + [Give] && a == Groups(s.nvs)
    requires l.rec.id == 0 || (IsSlot(l.rec.id) && b == Groups(Saved(s.nvs, l.rec)))
    ensures Between([LeaveIfNone] + save, l, s, a, b)
  {
    hide Groups, Saved;
    var code := [LeaveIfNone] + save;
    assert code[1..] == save && Effect(LeaveIfNone, l, s) == (l, s);
    if l.rec.id == 0 {
      GivesBetween([Give], l, s, a, b);
      assert Rest(code, l) == [Give];
    } else {
      SaveBetween([Give], l, s);
      assert Rest(code, l) == save;
    }
  }

  lemma ReadersConcat(a: seq<Instr>, b: seq<Instr>)
    requires AllRead(a) && AllRead(b)
    ensures AllRead(a + b)
  {
    hide ReadsOnly;
  }

  lemma {:induction false} ReaderCode(op: Op)
    requires op.Load? || op.List?
    ensures AllRead(Code(op))
  {
    hide LoadLoop, FillLoop, ReadLoop, AllRead;
    LoopsRead(0);
    FewRead();
    if op.Load? {
      ReadersConcat([Take, ReadBmp], LoadLoop(0));
      ReadersConcat([Take, ReadBmp] + LoadLoop(0), [Give]);
    } else {
      var a := [Take, Take, ReadBmp];
      ReadersConcat(a, FillLoop(0));
      ReadersConcat(a + FillLoop(0), [Give]);
      ReadersConcat(a + FillLoop(0) + [Give], ReadLoop(0));
      ReadersConcat(a + FillLoop(0) + [Give] + ReadLoop(0), [Give]);
    }
  }

  lemma FewRead()
    ensures AllRead([Take, ReadBmp]) && AllRead([Take, Take, ReadBmp]) && AllRead([Give])
  {
  }

  /** From any shared state, an operation alone lists the groups before or after
      it at every step. */
  lemma {:induction false} OperationBetween(op: Op, s: Shared)
    ensures Between(Code(op), Init(op), s, Groups(s.nvs), Groups(Atomic(op, s).1.nvs))
  {
    hide Groups, Between, Atomic, Code, Saved, Deleted, NextId;
    match op
    case Create(r) => CreateBetween(r, s);
    case Save(r) =>
      GroupHistory.AtomicSave(r, s);
      SaveCode(r);
      if IsSlot(r.id) {
        SaveBetween([], Init(op), s);
        assert SAVE_BODY + [] == SAVE_BODY;
      } else {
        GivesBetween([], Init(op), s, Groups(s.nvs), Groups(s.nvs));
      }
    case Delete(id) =>
      GroupHistory.AtomicDelete(id, s);
      DeleteCode(id);
      if IsSlot(id) {
        DeleteBetween(Init(op), s);
      } else {
        GivesBetween([], Init(op), s, Groups(s.nvs), Groups(s.nvs));
      }
    case Load(max) =>
      GroupHistory.AtomicLoad(max, s);
      ReaderCode(op);
      ReadersBetween(Code(op), Init(op), s);
    case List =>
      ReaderCode(op);
      ReadersBetween(Code(op), Init(op), s);
      ReadersEnd(Code(op), Init(op), s);
      AtomicIsAlone(op, s);
  }

  lemma SaveCode(r: Record)
    ensures Code(Save(r)) == if IsSlot(r.id) then SAVE_BODY else []
  {
  }

  lemma DeleteCode(id: U16)
    ensures Code(Delete(id)) == if IsSlot(id) then [Take, EraseBlob, ReadBmp, ClearBit, Give] else []
  {
  }

  lemma {:induction false} ReadersEnd(code: seq<Instr>, l: Local, s: Shared)
    requires AllRead(code)
    ensures Alone(code, l, s).1.nvs == s.nvs
    decreases |code|
  {
    if code != [] {
      var (l', s') := Effect(code[0], l, s);
      assert ReadsOnly(code[0]) && s'.nvs == s.nvs;
      var rest := Rest(code, l);
      assert forall k :: 0 <= k < |rest| ==> rest[k] in code;
      assert AllRead(rest);
      ReadersEnd(rest, l', s');
    }
  }

  // ---- All tasks -----------------------------------------------------------

  /** While a task holds the mutex, the rest of its program lists the groups of
      the last release or those of its own operation done. */
  ghost predicate OwnerBetween(sys: System) {
    if sys.owner.None? then Groups(sys.sh.nvs) == Groups(sys.base.nvs)
    else
      && sys.owner.value < |sys.tasks|
      && var k := sys.tasks[sys.owner.value];
         Between(k.code, k.l, sys.sh, Groups(sys.base.nvs), Groups(Atomic(k.op, sys.base).1.nvs))
  }

  lemma {:induction false} StepKeepsBetween(sh: Shared, sys: System, a: Action)
    requires Inv(sh, sys) && OwnerBetween(sys)
    ensures OwnerBetween(Next(sys, a))
  {
    hide Between, Groups, Atomic, Code, Init, Effect, Rest, Serial, Serializable, Alone, Bracketed;
    if a.t < |sys.tasks| {
      var k := sys.tasks[a.t];
      assert TaskOk(sys, a.t);
      if a.Start? {
        if k.code == [] { IdleHolds(sys, a.t); }
      } else if k.code != [] {
        var c := k.code[0];
        if sys.owner == Some(a.t) {
          BetweenNext(k.code, k.l, sys.sh, Groups(sys.base.nvs), Groups(Atomic(k.op, sys.base).1.nvs));
          StepOfOwner(k.code, k.l, sys.sh);
        } else if c == Take {
          if sys.owner.None? {
            OperationBetween(k.op, sys.base);
            FirstTake(sys, a.t);
          }
        } else {
          OnlyOwnersWork(sys, a.t);
        }
      }
    }
  }

  lemma IdleHolds(sys: System, t: nat)
    requires t < |sys.tasks| && TaskOk(sys, t) && sys.tasks[t].code == [] && (sys.owner == Some(t) ==> sys.depth > 0)
    ensures sys.owner != Some(t)
  {
    IdleHoldsNothing(sys, t);
  }

  /** A take or a give leaves variables and shared state alone. */
  lemma StepOfOwner(code: seq<Instr>, l: Local, s: Shared)
    requires code != []
    ensures code[0] == Take || code[0] == Give ==> Effect(code[0], l, s) == (l, s) && Rest(code, l) == code[1..]
  {
  }

  /** A task that takes the free mutex stands at the start of its program. */
  lemma {:induction false} FirstTake(sys: System, t: nat)
    requires t < |sys.tasks| && TaskOk(sys, t) && sys.owner.None? && sys.sh == sys.base
    requires sys.tasks[t].code != [] && sys.tasks[t].code[0] == Take
    ensures var k := sys.tasks[t];
            forall a, b :: Between(Code(k.op), Init(k.op), sys.base, a, b) ==> Between(k.code[1..], k.l, sys.sh, a, b)
  {
    hide Code, Init, Effect, Rest, Bracketed, Groups;
    var k := sys.tasks[t];
    StepOfOwner(k.code, k.l, sys.sh);
    forall a, b | Between(Code(k.op), Init(k.op), sys.base, a, b)
      ensures Between(k.code[1..], k.l, sys.sh, a, b)
    {
      BetweenNext(k.code, k.l, sys.sh, a, b);
    }
  }

  lemma OnlyOwnersWork(sys: System, t: nat)
    requires t < |sys.tasks| && TaskOk(sys, t) && sys.owner != Some(t)
    requires sys.tasks[t].code != []
    ensures sys.tasks[t].code[0] == Take
  {
  }

  lemma {:induction false} RunKeepsBetween(sh: Shared, sys: System, actions: seq<Action>)
    requires Inv(sh, sys) && OwnerBetween(sys)
    ensures OwnerBetween(Run(sys, actions))
    decreases |actions|
  {
    hide Inv, Next, OwnerBetween;
    if actions != [] {
      StepKeepsInv(sh, sys, actions[0]);
      StepKeepsBetween(sh, sys, actions[0]);
      RunKeepsBetween(sh, Next(sys, actions[0]), actions[1..]);
    }
  }

  /** Power fails after any steps of any tasks: the flash lists the groups that the
      finished operations make one after the other, or those with the operation of
      the thread that holds the mutex done as well. */
  lemma {:induction false} PowerFailure(n: nat, sh: Shared, actions: seq<Action>)
    ensures var sys := Run(Boot(n, sh), actions);
            var done := Serial(sh, sys.log);
            Groups(sys.sh.nvs) == Groups(done.nvs) ||
            (sys.owner.Some? && sys.owner.value < |sys.tasks| &&
             Groups(sys.sh.nvs) == Groups(Atomic(sys.tasks[sys.owner.value].op, done).1.nvs))
  {
    hide Code, Init, Alone, Atomic, Run, Between, Groups;
    var boot := Boot(n, sh);
    assert forall t :: 0 <= t < |boot.tasks| ==> boot.tasks[t].code == [];
    assert Inv(sh, boot);
    RunKeepsInv(sh, boot, actions);
    RunKeepsBetween(sh, boot, actions);
    var sys := Run(boot, actions);
    if sys.owner.Some? {
      var k := sys.tasks[sys.owner.value];
      BetweenHere(k.code, k.l, sys.sh, Groups(sys.base.nvs), Groups(Atomic(k.op, sys.base).1.nvs));
    }
  }
}
