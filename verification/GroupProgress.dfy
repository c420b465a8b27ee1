// Operations on the group store finish: a task that holds the mutex needs no one
// else to release it, and what it then leaves is its own operation done.
module GroupProgress {
  import opened Bytes
  import opened GroupStore
  import opened GroupTasks
  import GroupHistory
  import GroupRuns

  /** Task `t` alone takes `n` steps. */
  function Steps(t: nat, n: nat): seq<Action> {
    if n == 0 then [] else [Step(t)] + Steps(t, n - 1)
  }

  lemma {:induction false} RunCons(sys: System, a: Action, rest: seq<Action>)
    ensures Run(sys, [a] + rest) == Run(Next(sys, a), rest)
  {
    hide Next;
    assert ([a] + rest)[1..] == rest;
  }

  lemma {:induction false} RunConcat(sys: System, a: seq<Action>, b: seq<Action>)
    ensures Run(sys, a + b) == Run(Run(sys, a), b)
    decreases |a|
  {
    hide Next;
    if a == [] {
      assert a + b == b;
    } else {
      assert a + b == [a[0]] + (a[1..] + b);
      RunCons(sys, a[0], a[1..] + b);
      RunConcat(Next(sys, a[0]), a[1..], b);
    }
  }

  /** A task that has nothing to do changes nothing. */
  lemma {:induction false} IdleSteps(sys: System, t: nat, n: nat)
    requires t < |sys.tasks| && sys.tasks[t].code == []
    ensures Run(sys, Steps(t, n)) == sys
  {
    if n > 0 {
      RunCons(sys, Step(t), Steps(t, n - 1));
      IdleSteps(sys, t, n - 1);
    }
  }

  /** The system in which task `t` has finished with `l` and left `s`. */
  function Finished(sys: System, t: nat, l: Local, s: Shared): System
    requires t < |sys.tasks|
  {
    System(sys.tasks[t := Task(sys.tasks[t].op, [], l)], None, 0, s, sys.log + [Done(sys.tasks[t].op, l)], s)
  }

  /** One step of the thread that holds the mutex, `depth` deep. */
  lemma {:induction false} OwnerStep(sys: System, t: nat)
    requires t < |sys.tasks| && sys.owner == Some(t) && sys.depth > 0
    requires Bracketed(sys.tasks[t].code, sys.depth)
    ensures sys.tasks[t].code != []
    ensures var k, next := sys.tasks[t], Next(sys, Step(t));
            var (l, s) := Effect(k.code[0], k.l, sys.sh);
            var rest := Rest(k.code, k.l);
            if k.code[0] == Give && sys.depth == 1 then rest == [] && next == Finished(sys, t, l, s)
            else
              && next.tasks == sys.tasks[t := Task(k.op, rest, l)] && next.sh == s
              && next.owner == Some(t) && next.depth > 0 && Bracketed(rest, next.depth)
              && next.log == sys.log
  {
    hide Bracketed;
    var k := sys.tasks[t];
    NotDone(k.code, sys.depth);
    if k.code[0] == Take {
      TakeBracket(k.code, sys.depth);
    } else if k.code[0] == Give {
      GiveBracket(k.code, sys.depth);
    } else {
      hide Effect, Rest;
      WorkBracket(k.code, sys.depth, k.l);
    }
  }

  lemma {:induction false} NotDone(code: seq<Instr>, d: nat)
    requires Bracketed(code, d) && d > 0
    ensures code != []
  {
  }

  /** The owner's remaining steps, taken alone, end its operation as it would have
      ended without any other task, and free the mutex. */
  lemma {:induction false} OwnerFinishes(sys: System, t: nat, n: nat)
    requires t < |sys.tasks| && sys.owner == Some(t) && sys.depth > 0
    requires Bracketed(sys.tasks[t].code, sys.depth) && n >= |sys.tasks[t].code|
    ensures var k := sys.tasks[t];
            var (l, s) := Alone(k.code, k.l, sys.sh);
            Run(sys, Steps(t, n)) == Finished(sys, t, l, s)
    decreases n
  {
    hide Next, Effect, Rest, Alone, Bracketed;
    var k, next := sys.tasks[t], Next(sys, Step(t));
    OwnerStep(sys, t);
    AloneUnfold(k.code, k.l, sys.sh);
    RunCons(sys, Step(t), Steps(t, n - 1));
    if k.code[0] == Give && sys.depth == 1 {
      AloneNothing(Effect(k.code[0], k.l, sys.sh).0, Effect(k.code[0], k.l, sys.sh).1);
      IdleSteps(next, t, n - 1);
    } else {
      RestShorter(k.code, k.l);
      OwnerFinishes(next, t, n - 1);
      assert next.tasks[t].op == k.op;
      var (l, s) := Alone(k.code, k.l, sys.sh);
      assert next.tasks[t := Task(k.op, [], l)] == sys.tasks[t := Task(k.op, [], l)];
    }
  }

  lemma {:induction false} RestShorter(code: seq<Instr>, l: Local)
    requires code != []
    ensures |Rest(code, l)| < |code|
  {
  }

  /** A task at the start of its program, with the mutex free, runs it to its end. */
  lemma {:induction false} StartedFinishes(sys: System, t: nat)
    requires t < |sys.tasks| && sys.owner.None? && sys.depth == 0
    requires var k := sys.tasks[t]; k.code == Code(k.op) && k.l == Init(k.op) && k.code != []
    ensures var k := sys.tasks[t];
            var (l, s) := Atomic(k.op, sys.sh);
            Run(sys, Steps(t, |Code(k.op)|)) == Finished(sys, t, l, s)
  {
    hide Code, Init, Alone, Bracketed, Effect, Rest;
    var k, next := sys.tasks[t], Next(sys, Step(t));
    CodeBracketed(k.op);
    TakesFirst(k.code);
    TakeBracket(k.code, 0);
    TakeDoesNothing(k.code, k.l, sys.sh);
    AloneUnfold(k.code, k.l, sys.sh);
    AtomicIsAlone(k.op, sys.sh);
    RunCons(sys, Step(t), Steps(t, |k.code| - 1));
    OwnerFinishes(next, t, |k.code| - 1);
    var (l, s) := Atomic(k.op, sys.sh);
    assert next.tasks[t := Task(k.op, [], l)] == sys.tasks[t := Task(k.op, [], l)];
  }

  lemma {:induction false} TakesFirst(code: seq<Instr>)
    requires Bracketed(code, 0) && code != []
    ensures code[0] == Take
  {
  }

  lemma TakeDoesNothing(code: seq<Instr>, l: Local, s: Shared)
    requires code != [] && code[0] == Take
    ensures Effect(code[0], l, s) == (l, s) && Rest(code, l) == code[1..]
  {
  }

  // ---- Reachable systems ---------------------------------------------------

  /** An operation begun by an idle task while the mutex is free finishes in its own
      steps: it is logged, the mutex is free again, and the flash is the one its
      command makes. Other tasks stay where they are. */
  lemma {:induction false} OperationFinishes(sh: Shared, sys: System, t: nat, op: Op)
    requires Inv(sh, sys) && sys.owner.None? && t < |sys.tasks| && sys.tasks[t].code == []
    requires |sys.sh.all| == MAX_GROUPS
    ensures var next := Run(sys, [Start(t, op)] + Steps(t, |Code(op)|));
            && next.owner.None? && |next.tasks| == |sys.tasks| && next.tasks[t].code == []
            && (forall u :: 0 <= u < |sys.tasks| && u != t ==> next.tasks[u] == sys.tasks[u])
            && next.log == (if Refused(op) then sys.log else sys.log + [Done(op, Atomic(op, sys.sh).0)])
            && next.sh.nvs == FlashAfter(op, sys.sh.nvs)
  {
    hide Code, Init, Alone, Atomic, Bracketed, Serial, Serializable, GroupRuns.Exec;
    var begun := Next(sys, Start(t, op));
    RunCons(sys, Start(t, op), Steps(t, |Code(op)|));
    FlashOfAtomic(op, sys.sh);
    RefusedCode(op);
    if Code(op) == [] {
      IdleSteps(begun, t, |Code(op)|);
    } else {
      StartedFinishes(begun, t);
    }
  }

  /** An id outside the slots: nothing is done. */
  predicate Refused(op: Op) {
    match op
    case Save(r) => !(1 <= r.id <= 32)
    case Delete(id) => !(1 <= id <= 32)
    case _ => false
  }

  lemma RefusedCode(op: Op)
    ensures Code(op) == [] <==> Refused(op)
  {
  }

  function FlashAfter(op: Op, nvs: Nvs): Nvs {
    var c := GroupHistory.Command(op);
    if c.Some? then GroupRuns.Exec(nvs, c.value) else nvs
  }

  lemma FlashOfAtomic(op: Op, s: Shared)
    requires |s.all| == MAX_GROUPS
    ensures FlashAfter(op, s.nvs) == Atomic(op, s).1.nvs
    ensures Refused(op) ==> FlashAfter(op, s.nvs) == s.nvs
  {
    hide Atomic, Saved, Deleted, NextId;
    match op
    case Create(r) => GroupHistory.AtomicCreate(r, s);
    case Save(r) => GroupHistory.AtomicSave(r, s);
    case Delete(id) => GroupHistory.AtomicDelete(id, s);
    case Load(max) => GroupHistory.AtomicLoad(max, s);
    case List => GroupHistory.AtomicList(s);
  }

  /** Whoever holds the mutex can always finish alone. */
  lemma {:induction false} OwnerCanFinish(sh: Shared, sys: System)
    requires Inv(sh, sys) && sys.owner.Some?
    ensures var t := sys.owner.value;
            && t < |sys.tasks|
            && var k := sys.tasks[t];
               var (l, s) := Atomic(k.op, sys.base);
               Run(sys, Steps(t, |k.code|)) == Finished(sys, t, l, s)
  {
    hide Bracketed, Code, Init, Alone, Atomic, Serial, Serializable;
    var t := sys.owner.value;
    assert TaskOk(sys, t);
    OwnerFinishes(sys, t, |sys.tasks[t].code|);
  }

  /** No task is ever stuck for good: from every state of the invariant some steps
      of the tasks themselves finish all that is begun. */
  lemma {:induction false} AllCanFinish(sh: Shared, sys: System) returns (actions: seq<Action>)
    requires Inv(sh, sys)
    ensures var next := Run(sys, actions);
            && next.owner.None? && sys.log <= next.log && |next.tasks| == |sys.tasks|
            && forall u :: 0 <= u < |next.tasks| ==> next.tasks[u].code == []
  {
    hide Inv, Atomic;
    if sys.owner.Some? {
      OwnerCanFinish(sh, sys);
      var first := Steps(sys.owner.value, |sys.tasks[sys.owner.value].code|);
      RunKeepsInv(sh, sys, first);
      var rest := WaitingFinish(sh, Run(sys, first), 0);
      RunConcat(sys, first, rest);
      actions := first + rest;
    } else {
      actions := WaitingFinish(sh, sys, 0);
    }
  }

  /** The tasks from `i` on, which have not begun, run one after the other. */
  lemma {:induction false} WaitingFinish(sh: Shared, sys: System, i: nat) returns (actions: seq<Action>)
    requires Inv(sh, sys) && sys.owner.None? && i <= |sys.tasks|
    requires forall u :: 0 <= u < i ==> sys.tasks[u].code == []
    ensures var next := Run(sys, actions);
            && next.owner.None? && sys.log <= next.log && |next.tasks| == |sys.tasks|
            && forall u :: 0 <= u < |next.tasks| ==> next.tasks[u].code == []
    decreases |sys.tasks| - i
  {
    hide Inv, Code, Init, Atomic;
    if i == |sys.tasks| {
      actions := [];
      NoActions(sys);
    } else if sys.tasks[i].code == [] {
      actions := WaitingFinish(sh, sys, i + 1);
    } else {
      WaitingAtStart(sh, sys, i);
      StartedFinishes(sys, i);
      var first := Steps(i, |Code(sys.tasks[i].op)|);
      RunKeepsInv(sh, sys, first);
      var rest := WaitingFinish(sh, Run(sys, first), i + 1);
      RunConcat(sys, first, rest);
      actions := first + rest;
    }
  }

  lemma {:induction false} NoActions(sys: System)
    ensures Run(sys, []) == sys
  {
  }

  lemma WaitingAtStart(sh: Shared, sys: System, t: nat)
    requires Inv(sh, sys) && sys.owner.None? && t < |sys.tasks| && sys.tasks[t].code != []
    ensures sys.depth == 0
    ensures var k := sys.tasks[t]; k.code == Code(k.op) && k.l == Init(k.op)
  {
    hide Code, Init, Bracketed, Alone, Atomic, Serial, Serializable;
    assert TaskOk(sys, t);
  }

  /** What is begun in any reachable system can be finished, and an operation begun
      there with the mutex free is. */
  lemma {:induction false} ReachableFinishes(n: nat, sh: Shared, before: seq<Action>) returns (actions: seq<Action>)
    ensures var next := Run(Boot(n, sh), before + actions);
            next.owner.None? && |next.tasks| == n && forall u :: 0 <= u < n ==> next.tasks[u].code == []
  {
    hide Inv, Run;
    ReachableInv(n, sh, before);
    actions := AllCanFinish(sh, Run(Boot(n, sh), before));
    RunConcat(Boot(n, sh), before, actions);
  }

  /** After any interleaving: whenever the mutex is free, an operation that an idle
      task begins is done after its own steps. */
  lemma {:induction false} ReachableOperationFinishes(n: nat, sh: Shared, before: seq<Action>, t: nat, op: Op)
    requires |sh.all| == MAX_GROUPS && t < n
    requires var sys := Run(Boot(n, sh), before); sys.owner.None? && sys.tasks[t].code == []
    ensures var sys, next := Run(Boot(n, sh), before), Run(Boot(n, sh), before + [Start(t, op)] + Steps(t, |Code(op)|));
            && next.owner.None? && next.tasks[t].code == []
            && next.log == (if Refused(op) then sys.log else sys.log + [Done(op, Atomic(op, sys.sh).0)])
            && next.sh.nvs == FlashAfter(op, sys.sh.nvs)
  {
    hide Inv, Run, Code, Atomic, FlashAfter, Serial, Serializable;
    var sys := Run(Boot(n, sh), before);
    ReachableInv(n, sh, before);
    InterleavingsAreSerial(n, sh, before);
    GroupHistory.BufferSize(sh, sys.log, |sys.log|);
    assert sys.log[..|sys.log|] == sys.log;
    OperationFinishes(sh, sys, t, op);
    var own := [Start(t, op)] + Steps(t, |Code(op)|);
    RunConcat(Boot(n, sh), before, own);
    assert before + [Start(t, op)] + Steps(t, |Code(op)|) == before + own;
  }
}
