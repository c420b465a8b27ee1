// Any number of tasks running the group operations step by step under the
// recursive mutex of main/groups_store.cpp, and the shared static buffer of
// group_list_json (main/api_groups.cpp). Every interleaving is equivalent to the
// operations running one after the other in the order they released the mutex.
module GroupTasks {
  import opened Bytes
  import opened GroupStore

  // ---- Programs ------------------------------------------------------------

  datatype Op = Create(r: Record) | Save(r: Record) | Delete(id: U16) | Load(max: nat) | List

  /** One indivisible step of a task. */
  datatype Instr =
    | Take                   // xSemaphoreTakeRecursive
    | Give                   // xSemaphoreGiveRecursive
    | ReadBmp                // nvs_get_u32("bmp")
    | PickId                 // the bit scan of grp_next_id
    | LeaveIfNone            // return false when no id was free
    | WriteBlob              // nvs_set_blob
    | SetBit                 // nvs_set_u32 with the bit set
    | EraseBlob              // nvs_erase_key
    | ClearBit               // nvs_set_u32 with the bit cleared
    | LoadSlot(i: nat)       // one turn of the loop of grp_load_all
    | FillSlot(i: nat)       // the same, into the static buffer
    | ReadEntry(j: nat)      // serialise one entry of the static buffer

  /** The variables of a task. */
  datatype Local = Local(rec: Record, bmp: bv32, max: nat, count: nat, out: seq<Record>, ok: bool)

  /** What all tasks share: the flash and the static buffer. */
  datatype Shared = Shared(nvs: Nvs, all: seq<Record>)

  const SAVE_BODY: seq<Instr> := [Take, WriteBlob, ReadBmp, SetBit, Give]

  function LoadLoop(i: nat): seq<Instr>
    decreases MAX_GROUPS - i
  {
    if i >= MAX_GROUPS then [] else [LoadSlot(i)] + LoadLoop(i + 1)
  }

  function FillLoop(i: nat): seq<Instr>
    decreases MAX_GROUPS - i
  {
    if i >= MAX_GROUPS then [] else [FillSlot(i)] + FillLoop(i + 1)
  }

  function ReadLoop(j: nat): seq<Instr>
    decreases MAX_GROUPS - j
  {
    if j >= MAX_GROUPS then [] else [ReadEntry(j)] + ReadLoop(j + 1)
  }

  /** The program of an operation; a bad id returns before the mutex is touched. */
  function Code(op: Op): seq<Instr> {
    match op
    case Create(_) => [Take, Take, ReadBmp, PickId, Give, LeaveIfNone] + SAVE_BODY + [Give]
    case Save(r) => if IsSlot(r.id) then SAVE_BODY else []
    case Delete(id) => if IsSlot(id) then [Take, EraseBlob, ReadBmp, ClearBit, Give] else []
    case Load(_) => [Take, ReadBmp] + LoadLoop(0) + [Give]
    case List => [Take, Take, ReadBmp] + FillLoop(0) + [Give] + ReadLoop(0) + [Give]
  }

  /** A zeroed record with an id. */
  function Blank(id: U16): Record {
    Record(id, seq(32, _ => NUL), 0, seq(MAX_MEMBERS, _ => Member(0, 0)))
  }

  function Init(op: Op): Local {
    match op
    case Create(r) => Local(r, 0, 0, 0, [], false)
    case Save(r) => Local(r, 0, 0, 0, [], false)
    case Delete(id) => Local(Blank(id), 0, 0, 0, [], false)
    case Load(max) => Local(Blank(0), 0, max, 0, [], false)
    case List => Local(Blank(0), 0, MAX_GROUPS, 0, [], false)
  }

  /** The record grp_load_all takes from slot `i`, given the bitmap it has read. */
  function SlotRecord(nvs: Nvs, bmp: bv32, i: nat): Option<Record>
    requires i < MAX_GROUPS
  {
    var b := BlobAt(nvs, i + 1);
    if Bit(bmp, i) && b.Some? && b.value.id == i + 1 then Some(Clamp(b.value)) else None
  }

  /** The effect of one step on one thread's variables and the shared state. */
  function Effect(c: Instr, l: Local, s: Shared): (Local, Shared) {
    match c
    case ReadBmp => (l.(bmp := Bmp(s.nvs)), s)
    case PickId => (l.(rec := l.rec.(id := FreeFrom(l.bmp, 0))), s)
    case WriteBlob => (l, s.(nvs := BlobWritten(s.nvs, l.rec)))
    case SetBit =>
      if IsSlot(l.rec.id) then (l.(ok := true), s.(nvs := s.nvs[BMP := Word(With(l.bmp, Mask(l.rec.id - 1)))]))
      else (l, s)
    case EraseBlob => (l, s.(nvs := BlobErased(s.nvs, l.rec.id)))
    case ClearBit =>
      if IsSlot(l.rec.id) then (l.(ok := true), s.(nvs := s.nvs[BMP := Word(Without(l.bmp, Mask(l.rec.id - 1)))]))
      else (l, s)
    case LoadSlot(i) =>
      if i < MAX_GROUPS && |l.out| < l.max && SlotRecord(s.nvs, l.bmp, i).Some? then
        (l.(out := l.out + [SlotRecord(s.nvs, l.bmp, i).value]), s)
      else (l, s)
    case FillSlot(i) =>
      if i < MAX_GROUPS && l.count < |s.all| && SlotRecord(s.nvs, l.bmp, i).Some? then
        (l.(count := l.count + 1), s.(all := s.all[l.count := SlotRecord(s.nvs, l.bmp, i).value]))
      else (l, s)
    case ReadEntry(j) => if j < l.count && j < |s.all| then (l.(out := l.out + [s.all[j]]), s) else (l, s)
    case _ => (l, s)
  }

  /** The program left after its first step: a task without a free id skips to
      the release of the outer lock. */
  function Rest(code: seq<Instr>, l: Local): (r: seq<Instr>)
    requires code != []
    ensures |r| < |code|
  {
    var rest := code[1..];
    if code[0] == LeaveIfNone && l.rec.id == 0 && rest != [] then rest[|rest| - 1..] else rest
  }

  /** A program run without interruption. */
  function Alone(code: seq<Instr>, l: Local, s: Shared): (Local, Shared)
    decreases |code|
  {
    if code == [] then (l, s)
    else
      var (l', s') := Effect(code[0], l, s);
      Alone(Rest(code, l), l', s')
  }

  /** What an operation does when nothing interferes. */
  function Atomic(op: Op, s: Shared): (Local, Shared) {
    Alone(Code(op), Init(op), s)
  }

  /** With the mutex held `d` deep: every other step lies inside one bracket of
      takes and gives that ends the program. */
  predicate Bracketed(code: seq<Instr>, d: nat)
    decreases |code|
  {
    if code == [] then d == 0
    else
      match code[0]
      case Take => Bracketed(code[1..], d + 1)
      case Give => d > 0 && (d == 1 ==> code[1..] == []) && Bracketed(code[1..], d - 1)
      case LeaveIfNone => d == 1 && |code| > 1 && code[|code| - 1] == Give && Bracketed(code[1..], d)
      case _ => d > 0 && Bracketed(code[1..], d)
  }

  // ---- The system ----------------------------------------------------------

  datatype Task = Task(op: Op, code: seq<Instr>, l: Local)
  datatype Done = Done(op: Op, l: Local)

  /** Tasks, mutex and shared state; `log` and `base` are history: the operations
      in the order of their final release, and the shared state at the last one. */
  datatype System = System(tasks: seq<Task>, owner: Option<nat>, depth: nat, sh: Shared, log: seq<Done>, base: Shared)

  datatype Action = Start(t: nat, op: Op) | Step(t: nat)

  /** The recursive mutex. */
  predicate CanTake(sys: System, t: nat) {
    sys.owner.None? || sys.owner.value == t
  }

  /** One step of the system; an action that is not possible changes nothing. */
  function Next(sys: System, a: Action): (next: System)
    ensures |next.tasks| == |sys.tasks|
  {
    if a.t >= |sys.tasks| then sys
    else
      var k := sys.tasks[a.t];
      match a
      case Start(t, op) =>
        if k.code == [] then sys.(tasks := sys.tasks[t := Task(op, Code(op), Init(op))]) else sys
      case Step(t) =>
        if k.code == [] then sys
        else if k.code[0] == Take then
          if CanTake(sys, t) then
            sys.(tasks := sys.tasks[t := k.(code := k.code[1..])], owner := Some(t), depth := sys.depth + 1)
          else sys
        else if k.code[0] == Give then
          if sys.owner == Some(t) && sys.depth > 1 then
            sys.(tasks := sys.tasks[t := k.(code := k.code[1..])], depth := sys.depth - 1)
          else if sys.owner == Some(t) && sys.depth == 1 then
            System(sys.tasks[t := k.(code := k.code[1..])], None, 0, sys.sh, sys.log + [Done(k.op, k.l)], sys.sh)
          else sys
        else
          var (l', s') := Effect(k.code[0], k.l, sys.sh);
          sys.(tasks := sys.tasks[t := Task(k.op, Rest(k.code, k.l), l')], sh := s')
  }

  function Run(sys: System, actions: seq<Action>): (next: System)
    ensures |next.tasks| == |sys.tasks|
    decreases |actions|
  {
    if actions == [] then sys else Run(Next(sys, actions[0]), actions[1..])
  }

  // ---- The log as a serial execution --------------------------------------

  /** The shared state after the operations of a log, one after the other. */
  function Serial(sh: Shared, log: seq<Done>): Shared
    decreases |log|
  {
    if log == [] then sh else Atomic(log[|log| - 1].op, Serial(sh, log[..|log| - 1])).1
  }

  /** Every operation ended as it would have alone at its place in the log. */
  ghost predicate Serializable(sh: Shared, log: seq<Done>) {
    forall k :: 0 <= k < |log| ==> log[k].l == Atomic(log[k].op, Serial(sh, log[..k])).0
  }

  function Held(sys: System, t: nat): nat {
    if sys.owner == Some(t) then sys.depth else 0
  }

  /** A task that does not hold the mutex has not begun or has finished. */
  ghost predicate TaskOk(sys: System, t: nat)
    requires t < |sys.tasks|
  {
    var k := sys.tasks[t];
    && Bracketed(k.code, Held(sys, t))
    && (Held(sys, t) == 0 ==> k.code == [] || (k.code == Code(k.op) && k.l == Init(k.op)))
  }

  ghost predicate Inv(sh: Shared, sys: System) {
    && (forall t :: 0 <= t < |sys.tasks| ==> TaskOk(sys, t))
    && sys.base == Serial(sh, sys.log)
    && Serializable(sh, sys.log)
    && (sys.owner.None? ==> sys.depth == 0 && sys.sh == sys.base)
    && (sys.owner.Some? ==>
          && sys.owner.value < |sys.tasks| && sys.depth > 0
          && var k := sys.tasks[sys.owner.value];
             Alone(k.code, k.l, sys.sh) == Atomic(k.op, sys.base))
  }

  /** One turn inside a bracket, or none. */
  lemma {:induction false} TurnBracketed(c: Instr, loop: seq<Instr>, after: seq<Instr>, d: nat)
    requires c != Take && c != Give && c != LeaveIfNone && d > 0 && Bracketed(loop + after, d)
    ensures Bracketed([c] + loop + after, d)
  {
    hide Bracketed;
    WorkFirst(c, loop + after, d);
    assert [c] + loop + after == [c] + (loop + after);
  }

  lemma {:induction false} LoopEnds(after: seq<Instr>, d: nat)
    requires Bracketed(after, d)
    ensures Bracketed([] + after, d)
  {
    hide Bracketed;
    assert [] + after == after;
  }

  lemma {:induction false} LoadLoopBracketed(i: nat, after: seq<Instr>, d: nat)
    requires d > 0 && Bracketed(after, d)
    ensures Bracketed(LoadLoop(i) + after, d)
    decreases MAX_GROUPS - i
  {
    hide Bracketed;
    if i >= MAX_GROUPS {
      LoopEnds(after, d);
    } else {
      LoadLoopBracketed(i + 1, after, d);
      TurnBracketed(LoadSlot(i), LoadLoop(i + 1), after, d);
    }
  }

  lemma {:induction false} FillLoopBracketed(i: nat, after: seq<Instr>, d: nat)
    requires d > 0 && Bracketed(after, d)
    ensures Bracketed(FillLoop(i) + after, d)
    decreases MAX_GROUPS - i
  {
    hide Bracketed;
    if i >= MAX_GROUPS {
      LoopEnds(after, d);
    } else {
      FillLoopBracketed(i + 1, after, d);
      TurnBracketed(FillSlot(i), FillLoop(i + 1), after, d);
    }
  }

  lemma {:induction false} ReadLoopBracketed(j: nat, after: seq<Instr>, d: nat)
    requires d > 0 && Bracketed(after, d)
    ensures Bracketed(ReadLoop(j) + after, d)
    decreases MAX_GROUPS - j
  {
    hide Bracketed;
    if j >= MAX_GROUPS {
      LoopEnds(after, d);
    } else {
      ReadLoopBracketed(j + 1, after, d);
      TurnBracketed(ReadEntry(j), ReadLoop(j + 1), after, d);
    }
  }

  lemma LoadBracketed(max: nat)
    ensures Bracketed(Code(Load(max)), 0)
  {
    hide LoadLoop;
    var c, e := Code(Load(max)), LoadLoop(0) + [Give];
    GiveEnds();
    LoadLoopBracketed(0, [Give], 1);
    assert c == [Take, ReadBmp] + e;
    assert c[1..] == [ReadBmp] + e && c[1..][1..] == e;
  }

  lemma GiveEnds()
    ensures Bracketed([Give], 1)
  {
    var g := [Give];
    assert g[1..] == [];
  }

  lemma ListBracketed()
    ensures Bracketed(Code(List), 0)
  {
    hide FillLoop, ReadLoop;
    var read := ReadLoop(0) + [Give];
    var tail := [Give] + read;
    var e := FillLoop(0) + tail;
    GiveEnds();
    ReadLoopBracketed(0, [Give], 1);
    assert tail[1..] == read;
    FillLoopBracketed(0, tail, 2);
    var c := Code(List);
    assert c == [Take, Take, ReadBmp] + e;
    assert c[1..] == [Take, ReadBmp] + e && c[1..][1..] == [ReadBmp] + e && c[1..][1..][1..] == e;
  }

  /** Every program is one bracket. */
  lemma CodeBracketed(op: Op)
    ensures Bracketed(Code(op), 0)
  {
    match op
    case Create(_) => CreateBracketed(op);
    case Save(r) => SaveBracketed();
    case Delete(id) => DeleteBracketed();
    case Load(max) => LoadBracketed(max);
    case List => ListBracketed();
  }

  lemma SaveBracketed()
    ensures Bracketed(SAVE_BODY, 0)
    ensures Bracketed(SAVE_BODY + [Give], 1)
  {
    var c, e := SAVE_BODY, SAVE_BODY + [Give];
    assert c[1..] == [WriteBlob, ReadBmp, SetBit, Give] && c[2..] == [ReadBmp, SetBit, Give]
           && c[3..] == [SetBit, Give];
    assert c[4..] == [Give] && c[5..] == [];
    assert Bracketed(c[5..], 0) && Bracketed(c[4..], 1);
    assert c[3..][1..] == c[4..] && c[2..][1..] == c[3..] && c[1..][1..] == c[2..];
    assert e[1..] == [WriteBlob, ReadBmp, SetBit, Give, Give] && e[2..] == [ReadBmp, SetBit, Give, Give];
    assert e[3..] == [SetBit, Give, Give] && e[4..] == [Give, Give] && e[5..] == [Give] && e[6..] == [];
    assert e[5..][1..] == e[6..] && e[4..][1..] == e[5..] && e[3..][1..] == e[4..]
           && e[2..][1..] == e[3..] && e[1..][1..] == e[2..];
    assert Bracketed(e[5..], 1) && Bracketed(e[4..], 2) && Bracketed(e[3..], 2)
           && Bracketed(e[2..], 2) && Bracketed(e[1..], 2);
  }

  lemma {:induction false} TakeFirst(rest: seq<Instr>, d: nat)
    requires Bracketed(rest, d + 1)
    ensures Bracketed([Take] + rest, d)
  {
    assert ([Take] + rest)[1..] == rest;
  }

  lemma GiveFirst(rest: seq<Instr>, d: nat)
    requires Bracketed(rest, d) && (d == 0 ==> rest == [])
    ensures Bracketed([Give] + rest, d + 1)
  {
    assert ([Give] + rest)[1..] == rest;
  }

  lemma {:induction false} WorkFirst(c: Instr, rest: seq<Instr>, d: nat)
    requires c != Take && c != Give && d > 0 && Bracketed(rest, d)
    requires c == LeaveIfNone ==> d == 1 && rest != [] && rest[|rest| - 1] == Give
    ensures Bracketed([c] + rest, d)
  {
    assert ([c] + rest)[1..] == rest;
  }

  lemma CreateBracketed(op: Op)
    requires op.Create?
    ensures Bracketed(Code(op), 0)
  {
    hide SAVE_BODY, Bracketed, Code;
    SaveBracketed();
    CreateCode(op);
    var e := SAVE_BODY + [Give];
    var c := [Take] + ([ReadBmp] + ([PickId] + ([Give] + ([LeaveIfNone] + e))));
    NextIdBracketed(e);
    TakeFirst(c, 0);
    assert Code(op) == [Take] + c;
  }

  /** The bracket of grp_next_id inside that of grp_create. */
  lemma {:induction false} NextIdBracketed(e: seq<Instr>)
    requires Bracketed(e, 1) && e != [] && e[|e| - 1] == Give
    ensures Bracketed([Take] + ([ReadBmp] + ([PickId] + ([Give] + ([LeaveIfNone] + e)))), 1)
  {
    hide Bracketed;
    var c5 := [LeaveIfNone] + e;
    var c4 := [Give] + c5;
    WorkFirst(LeaveIfNone, e, 1);
    GiveFirst(c5, 1);
    WorkFirst(PickId, c4, 2);
    WorkFirst(ReadBmp, [PickId] + c4, 2);
    TakeFirst([ReadBmp] + ([PickId] + c4), 1);
  }

  lemma CreateCode(op: Op)
    requires op.Create?
    ensures Code(op) == [Take, Take, ReadBmp, PickId, Give, LeaveIfNone] + (SAVE_BODY + [Give])
  {
    hide SAVE_BODY;
  }

  lemma DeleteBracketed()
    ensures Bracketed([Take, EraseBlob, ReadBmp, ClearBit, Give], 0)
  {
    var c := [Take, EraseBlob, ReadBmp, ClearBit, Give];
    assert c[1..] == [EraseBlob, ReadBmp, ClearBit, Give] && c[2..] == [ReadBmp, ClearBit, Give]
           && c[3..] == [ClearBit, Give];
    assert c[4..] == [Give] && c[5..] == [];
    assert c[4..][1..] == c[5..] && c[3..][1..] == c[4..] && c[2..][1..] == c[3..] && c[1..][1..] == c[2..];
    assert Bracketed(c[4..], 1) && Bracketed(c[3..], 1);
  }

  // ---- Every interleaving is serial ----------------------------------------

  lemma {:induction false} AloneUnfold(code: seq<Instr>, l: Local, s: Shared)
    requires code != []
    ensures var (l', s') := Effect(code[0], l, s);
            Alone(code, l, s) == Alone(Rest(code, l), l', s')
  {
  }

  lemma {:induction false} AloneNothing(l: Local, s: Shared)
    ensures Alone([], l, s) == (l, s)
  {
  }

  lemma {:induction false} SerialAppend(sh: Shared, log: seq<Done>, d: Done)
    requires Serializable(sh, log) && d.l == Atomic(d.op, Serial(sh, log)).0
    ensures Serial(sh, log + [d]) == Atomic(d.op, Serial(sh, log)).1
    ensures Serializable(sh, log + [d])
  {
    hide Atomic;
    var all := log + [d];
    assert all[..|log|] == log;
    forall k | 0 <= k < |all|
      ensures all[k].l == Atomic(all[k].op, Serial(sh, all[..k])).0
    {
      if k < |log| { assert all[..k] == log[..k]; }
    }
  }

  /** Other tasks keep their place when one task moves. */
  lemma OthersOk(sys: System, next: System, t: nat)
    requires t < |sys.tasks| == |next.tasks|
    requires forall u :: 0 <= u < |sys.tasks| && u != t ==>
              next.tasks[u] == sys.tasks[u] && Held(next, u) == Held(sys, u)
    requires forall u :: 0 <= u < |sys.tasks| ==> TaskOk(sys, u)
    requires TaskOk(next, t)
    ensures forall u :: 0 <= u < |next.tasks| ==> TaskOk(next, u)
  {
    hide Bracketed, Code, Init;
    forall u | 0 <= u < |next.tasks|
      ensures TaskOk(next, u)
    {
      if u != t { assert TaskOk(sys, u); }
    }
  }

  lemma StartKeepsInv(sh: Shared, sys: System, t: nat, op: Op)
    requires Inv(sh, sys)
    ensures Inv(sh, Next(sys, Start(t, op)))
  {
    hide Code, Init, Alone, Atomic, Serial, Serializable;
    var next := Next(sys, Start(t, op));
    if t < |sys.tasks| && sys.tasks[t].code == [] {
      CodeBracketed(op);
      assert TaskOk(sys, t);
      IdleHoldsNothing(sys, t);
      OthersOk(sys, next, t);
    }
  }

  lemma IdleHoldsNothing(sys: System, t: nat)
    requires t < |sys.tasks| && TaskOk(sys, t) && sys.tasks[t].code == []
    ensures Held(sys, t) == 0
  {
  }

  lemma TakeKeepsInv(sh: Shared, sys: System, t: nat)
    requires Inv(sh, sys) && t < |sys.tasks|
    requires sys.tasks[t].code != [] && sys.tasks[t].code[0] == Take && CanTake(sys, t)
    ensures Inv(sh, Next(sys, Step(t)))
  {
    hide Code, Init, Alone, Atomic, Serial, Serializable;
    var k := sys.tasks[t];
    var next := Next(sys, Step(t));
    assert TaskOk(sys, t);
    TakeBracket(k.code, Held(sys, t));
    OthersOk(sys, next, t);
    AloneUnfold(k.code, k.l, sys.sh);
    if sys.owner.None? {
      AtomicIsAlone(k.op, sys.base);
    }
  }

  lemma {:induction false} AtomicIsAlone(op: Op, s: Shared)
    ensures Atomic(op, s) == Alone(Code(op), Init(op), s)
  {
  }

  lemma TakeBracket(code: seq<Instr>, d: nat)
    requires code != [] && code[0] == Take && Bracketed(code, d)
    ensures Bracketed(code[1..], d + 1)
  {
  }

  lemma GiveBracket(code: seq<Instr>, d: nat)
    requires code != [] && code[0] == Give && Bracketed(code, d)
    ensures d > 0 && Bracketed(code[1..], d - 1)
    ensures d == 1 ==> code[1..] == []
  {
  }

  lemma {:induction false} WorkBracket(code: seq<Instr>, d: nat, l: Local)
    requires code != [] && code[0] != Take && code[0] != Give && Bracketed(code, d)
    ensures d > 0 && Bracketed(Rest(code, l), d)
  {
    if code[0] == LeaveIfNone {
      GiveEnds();
      assert code[1..][|code[1..]| - 1] == Give;
      assert l.rec.id == 0 ==> Rest(code, l) == [Give];
    }
  }

  lemma GiveKeepsInv(sh: Shared, sys: System, t: nat)
    requires Inv(sh, sys) && t < |sys.tasks|
    requires sys.tasks[t].code != [] && sys.tasks[t].code[0] == Give
    ensures Inv(sh, Next(sys, Step(t)))
  {
    hide Code, Init, Alone, Atomic, Serial, Serializable;
    var k := sys.tasks[t];
    var next := Next(sys, Step(t));
    assert TaskOk(sys, t);
    GiveBracket(k.code, Held(sys, t));
    OthersOk(sys, next, t);
    AloneUnfold(k.code, k.l, sys.sh);
    if sys.depth == 1 {
      AloneNothing(k.l, sys.sh);
      SerialAppend(sh, sys.log, Done(k.op, k.l));
    }
  }

  lemma WorkKeepsInv(sh: Shared, sys: System, t: nat)
    requires Inv(sh, sys) && t < |sys.tasks|
    requires sys.tasks[t].code != [] && sys.tasks[t].code[0] != Give && sys.tasks[t].code[0] != Take
    ensures Inv(sh, Next(sys, Step(t)))
  {
    hide Code, Init, Alone, Atomic, Serial, Serializable, Effect, Rest;
    var k := sys.tasks[t];
    var next := Next(sys, Step(t));
    assert TaskOk(sys, t);
    WorkBracket(k.code, Held(sys, t), k.l);
    OthersOk(sys, next, t);
    AloneUnfold(k.code, k.l, sys.sh);
  }

  lemma {:induction false} RunKeepsInv(sh: Shared, sys: System, actions: seq<Action>)
    requires Inv(sh, sys)
    ensures Inv(sh, Run(sys, actions))
    decreases |actions|
  {
    hide Inv, Next;
    if actions != [] {
      var a := actions[0];
      StepKeepsInv(sh, sys, a);
      RunKeepsInv(sh, Next(sys, a), actions[1..]);
    }
  }

  lemma StepKeepsInv(sh: Shared, sys: System, a: Action)
    requires Inv(sh, sys)
    ensures Inv(sh, Next(sys, a))
  {
    hide Inv, Effect, Rest;
    if a.Start? {
      StartKeepsInv(sh, sys, a.t, a.op);
    } else if a.t < |sys.tasks| && sys.tasks[a.t].code != [] {
      var c := sys.tasks[a.t].code[0];
      if c == Take {
        if CanTake(sys, a.t) { TakeKeepsInv(sh, sys, a.t); }
      } else if c == Give {
        GiveKeepsInv(sh, sys, a.t);
      } else {
        WorkKeepsInv(sh, sys, a.t);
      }
    }
  }

  /** `n` tasks that have not begun. */
  function Boot(n: nat, sh: Shared): (sys: System)
    ensures |sys.tasks| == n
  {
    System(seq(n, _ => Task(List, [], Init(List))), None, 0, sh, [], sh)
  }

  lemma {:induction false} ReachableInv(n: nat, sh: Shared, actions: seq<Action>)
    ensures Inv(sh, Run(Boot(n, sh), actions))
  {
    hide Code, Init, Alone, Atomic, Run;
    var boot := Boot(n, sh);
    assert forall t :: 0 <= t < |boot.tasks| ==> boot.tasks[t].code == [];
    assert Inv(sh, boot);
    RunKeepsInv(sh, boot, actions);
  }

  /** Any interleaving of any number of tasks is serial: whenever the mutex is
      free the shared state is what the finished operations make of the first
      state one after the other, and each ended as it would have alone. */
  lemma {:induction false} InterleavingsAreSerial(n: nat, sh: Shared, actions: seq<Action>)
    ensures var sys := Run(Boot(n, sh), actions);
            && Serializable(sh, sys.log)
            && (sys.owner.None? ==> sys.sh == Serial(sh, sys.log))
  {
    hide Code, Init, Alone, Atomic, Run;
    ReachableInv(n, sh, actions);
  }
}
