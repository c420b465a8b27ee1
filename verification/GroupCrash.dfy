// Runs of the group store in which power may fail after the first write of any
// operation: the groups, together with the set of ids whose bit is set, still
// behave as a finite map. A cut delete costs an id.
module GroupCrash {
  import opened Bytes
  import opened GroupStore
  import opened GroupFlash
  import opened GroupRuns

  /** One command, and whether power fails between its two writes. A failure
      before the first write is a command that was never given. */
  datatype Step = Step(cmd: Cmd, cut: bool)

  function CrashExec(nvs: Nvs, s: Step): Nvs {
    if !s.cut then Exec(nvs, s.cmd)
    else
      match s.cmd
      case Save(r) => if IsSlot(r.id) then BlobWritten(nvs, r) else nvs
      case Create(r) =>
        var id := NextId(nvs);
        if id == 0 then nvs else BlobWritten(nvs, r.(id := id))
      case Delete(id) => if IsSlot(id) then BlobErased(nvs, id) else nvs
  }

  /** What power leaves of a cut command is the first of the two contents the
      methods of the store record. */
  lemma CutAfterFirstWrite(nvs: Nvs, r: Record, id: U16)
    requires 1 <= r.id <= 32 && 1 <= id <= 32
    ensures CrashExec(nvs, Step(Save(r), true)) == BlobWritten(nvs, r)
    ensures CrashExec(nvs, Step(Delete(id), true)) == BlobErased(nvs, id)
    ensures CrashExec(nvs, Step(Create(r), true)) ==
            if NextId(nvs) == 0 then nvs else (NextIdIsFree(nvs); BlobWritten(nvs, r.(id := NextId(nvs))))
  {
    hide BlobWritten, BlobErased, NextId;
  }

  function CrashRun(nvs: Nvs, steps: seq<Step>): Nvs
    decreases |steps|
  {
    if steps == [] then nvs else CrashRun(CrashExec(nvs, steps[0]), steps[1..])
  }

  // ---- Records and ids taken -----------------------------------------------

  /** The record stored under each slot, and the ids whose bit is set. */
  datatype State = State(blobs: Model, taken: set<nat>)

  /** What grp_load_all shows of a state: the records whose bit is set. */
  function Shown(st: State): Model {
    map id | id in st.blobs && id in st.taken :: Clamp(st.blobs[id])
  }

  /** The id a command is about, 0 for none. */
  function Target(st: State, cmd: Cmd): nat {
    match cmd
    case Save(r) => if IsSlot(r.id) then r.id else 0
    case Create(_) => LowestFree(st.taken, 0)
    case Delete(id) => if IsSlot(id) then id else 0
  }

  /** A command changes the record of its target whether it is cut or not; a cut
      one leaves the bit as it was. */
  function StateExec(st: State, s: Step): State {
    var id := Target(st, s.cmd);
    if id == 0 then st
    else
      match s.cmd
      case Save(r) => State(st.blobs[id := r], if s.cut then st.taken else st.taken + {id})
      case Create(r) => State(st.blobs[id := r.(id := id)], if s.cut then st.taken else st.taken + {id})
      case Delete(_) => State(st.blobs - {id}, if s.cut then st.taken else st.taken - {id})
  }

  function StateRun(st: State, steps: seq<Step>): State
    decreases |steps|
  {
    if steps == [] then st else StateRun(StateExec(st, steps[0]), steps[1..])
  }

  /** The ids whose bit is set. */
  function Taken(nvs: Nvs): set<nat> {
    set id: nat | 1 <= id <= MAX_GROUPS && Marked(nvs, id)
  }

  /** The records in the slots that carry their slot's id: what grp_find finds. */
  function Blobs(nvs: Nvs): Model {
    map id: nat | 1 <= id <= MAX_GROUPS && Found(nvs, id).Some? :: Found(nvs, id).value
  }

  function Abs(nvs: Nvs): State {
    State(Blobs(nvs), Taken(nvs))
  }

  lemma BlobIn(nvs: Nvs, id: nat)
    ensures id in Blobs(nvs) <==> IsSlot(id) && Found(nvs, id).Some?
    ensures id in Blobs(nvs) ==> Blobs(nvs)[id] == Found(nvs, id).value
  {
    hide Found;
  }

  /** grp_load_all and grp_find read the two halves of the state. */
  lemma ShownIsGroups(nvs: Nvs)
    ensures Shown(Abs(nvs)) == Groups(nvs)
  {
    hide Marked, BlobAt, Clamp, Blobs, Taken, Groups;
    forall id: nat
      ensures id in Groups(nvs) <==> id in Shown(Abs(nvs))
      ensures id in Groups(nvs) ==> Groups(nvs)[id] == Shown(Abs(nvs))[id]
    {
      BlobIn(nvs, id);
      TakenAt(nvs, id);
      if IsSlot(id) { GroupAt(nvs, id); } else { OnlySlots(nvs, id); }
    }
  }

  // ---- Refinement ----------------------------------------------------------

  lemma TakenAt(nvs: Nvs, id: nat)
    ensures id in Taken(nvs) <==> IsSlot(id) && Marked(nvs, id)
  {
  }

  lemma SameTaken(a: Nvs, b: Nvs)
    requires Bmp(a) == Bmp(b)
    ensures Taken(a) == Taken(b)
  {
    hide Bmp, Bit;
  }

  lemma BitWrittenTaken(nvs: Nvs, id: nat)
    requires IsSlot(id)
    ensures Taken(BitWritten(nvs, id)) == Taken(nvs) + {id}
  {
    hide Marked, BitWritten;
    forall k: nat | 1 <= k <= MAX_GROUPS
      ensures Marked(BitWritten(nvs, id), k) <==> k == id || Marked(nvs, k)
    {
      BitWrittenEffect(nvs, id, k);
    }
  }

  lemma BitErasedTaken(nvs: Nvs, id: nat)
    requires IsSlot(id)
    ensures Taken(BitErased(nvs, id)) == Taken(nvs) - {id}
  {
    hide Marked, BitErased;
    forall k: nat | 1 <= k <= MAX_GROUPS
      ensures Marked(BitErased(nvs, id), k) <==> k != id && Marked(nvs, k)
    {
      BitErasedEffect(nvs, id, k);
    }
  }

  lemma NextIdIsUntaken(nvs: Nvs)
    ensures NextId(nvs) == LowestFree(Taken(nvs), 0)
  {
    hide Marked, NextId, Taken, Groups;
    NextIdIsFree(nvs);
    var a, b := NextId(nvs), LowestFree(Taken(nvs), 0);
    TakenAt(nvs, a);
    TakenAt(nvs, b);
  }

  lemma SaveRefines(nvs: Nvs, r: Record)
    requires IsSlot(r.id)
    ensures Abs(BlobWritten(nvs, r)) == State(Blobs(nvs)[r.id as nat := r], Taken(nvs))
    ensures Abs(Saved(nvs, r)) == State(Blobs(nvs)[r.id as nat := r], Taken(nvs) + {r.id as nat})
  {
    hide Taken, BlobAt, Bmp, BlobWritten, BitWritten;
    var mid := BlobWritten(nvs, r);
    BlobWrittenEffect(nvs, r, r.id);
    SameTaken(nvs, mid);
    BitWrittenTaken(mid, r.id);
    forall id: U16
      ensures BlobAt(mid, id) == if id == r.id then Some(r) else BlobAt(nvs, id)
      ensures BlobAt(Saved(nvs, r), id) == BlobAt(mid, id)
    {
      BlobWrittenEffect(nvs, r, id);
      BitWrittenEffect(mid, r.id, id);
    }
  }

  lemma DeleteRefines(nvs: Nvs, e: U16)
    requires IsSlot(e)
    ensures Abs(BlobErased(nvs, e)) == State(Blobs(nvs) - {e as nat}, Taken(nvs))
    ensures Abs(Deleted(nvs, e)) == State(Blobs(nvs) - {e as nat}, Taken(nvs) - {e as nat})
  {
    hide Taken, BlobAt, Bmp, BlobErased, BitErased;
    var mid := BlobErased(nvs, e);
    BlobErasedEffect(nvs, e, e);
    SameTaken(nvs, mid);
    BitErasedTaken(mid, e);
    forall id: U16
      ensures BlobAt(mid, id) == if id == e then None else BlobAt(nvs, id)
      ensures BlobAt(Deleted(nvs, e), id) == BlobAt(mid, id)
    {
      BlobErasedEffect(nvs, e, id);
      BitErasedEffect(mid, e, id);
    }
  }

  lemma CrashExecRefines(nvs: Nvs, s: Step)
    ensures Abs(CrashExec(nvs, s)) == StateExec(Abs(nvs), s)
  {
    hide Blobs, Taken, Saved, Deleted, BlobWritten, BlobErased, NextId, LowestFree;
    match s.cmd
    case Save(r) => if IsSlot(r.id) { SaveRefines(nvs, r); }
    case Create(r) =>
      NextIdIsUntaken(nvs);
      var id := NextId(nvs);
      if id != 0 { SaveRefines(nvs, r.(id := id)); }
    case Delete(id) => if IsSlot(id) { DeleteRefines(nvs, id); }
  }

  /** From any flash, over any commands cut anywhere: the groups and the ids taken
      change as in the map. */
  lemma {:induction false} CrashRunRefines(nvs: Nvs, steps: seq<Step>)
    ensures Abs(CrashRun(nvs, steps)) == StateRun(Abs(nvs), steps)
    decreases |steps|
  {
    hide Abs, CrashExec, StateExec;
    if steps != [] {
      CrashExecRefines(nvs, steps[0]);
      CrashRunRefines(CrashExec(nvs, steps[0]), steps[1..]);
    }
  }

  // ---- What grp_load_all shows ---------------------------------------------

  /** The groups a step leaves: a cut save happens exactly when its id was taken, a
      cut create never, and a delete always. */
  lemma ShownStep(st: State, s: Step)
    ensures var id, m := Target(st, s.cmd), Shown(st);
            Shown(StateExec(st, s)) ==
            if id == 0 then m
            else
              match s.cmd
              case Save(r) => if s.cut && id !in st.taken then m else m[id := Clamp(r)]
              case Create(r) => if s.cut then m else m[id := Clamp(r.(id := id))]
              case Delete(_) => m - {id}
  {
    hide Clamp;
  }

  /** For the groups each cut command happened as a whole or not at all. */
  lemma HappenedOrNot(nvs: Nvs, cmd: Cmd)
    ensures Groups(CrashExec(nvs, Step(cmd, true))) == Groups(nvs) ||
            Groups(CrashExec(nvs, Step(cmd, true))) == Groups(Exec(nvs, cmd))
  {
    hide Groups, Abs, Exec, CrashExec, StateExec, Shown, Clamp;
    CrashExecRefines(nvs, Step(cmd, true));
    CrashExecRefines(nvs, Step(cmd, false));
    ShownStep(Abs(nvs), Step(cmd, true));
    ShownStep(Abs(nvs), Step(cmd, false));
    ShownIsGroups(nvs);
    ShownIsGroups(Exec(nvs, cmd));
    ShownIsGroups(CrashExec(nvs, Step(cmd, true)));
    assert CrashExec(nvs, Step(cmd, false)) == Exec(nvs, cmd) by { Uncut(nvs, cmd); }
  }

  lemma Uncut(nvs: Nvs, cmd: Cmd)
    ensures CrashExec(nvs, Step(cmd, false)) == Exec(nvs, cmd)
  {
    hide Exec;
  }

  // ---- What a cut delete costs ---------------------------------------------

  /** The id is taken, yet nothing is stored under it. */
  predicate Lost(st: State, id: nat) {
    id in st.taken && id !in st.blobs
  }

  /** A delete cut after the erase loses the id exactly when its bit was set. */
  lemma CutDeleteLoses(nvs: Nvs, id: U16)
    requires IsSlot(id)
    ensures Lost(Abs(CrashExec(nvs, Step(Delete(id), true))), id) <==> id as nat in Taken(nvs)
  {
    hide CrashExec, Blobs, Taken;
    CrashExecRefines(nvs, Step(Delete(id), true));
  }

  /** The commands that give a lost id back: a save under it, cut or not, and a
      delete that is not cut. */
  predicate GivesBack(s: Step, id: nat) {
    (s.cmd.Save? && s.cmd.r.id == id) || (s.cmd.Delete? && s.cmd.id == id && !s.cut)
  }

  lemma LostStep(st: State, s: Step, id: nat)
    requires IsSlot(id) && Lost(st, id)
    ensures Lost(StateExec(st, s), id) <==> !GivesBack(s, id)
  {
    hide LowestFree, Clamp;
  }

  lemma {:induction false} LostOver(st: State, steps: seq<Step>, id: nat)
    requires IsSlot(id) && Lost(st, id)
    requires forall k :: 0 <= k < |steps| ==> !GivesBack(steps[k], id)
    ensures Lost(StateRun(st, steps), id)
    decreases |steps|
  {
    hide StateExec, Lost, GivesBack;
    if steps != [] {
      LostStep(st, steps[0], id);
      LostOver(StateExec(st, steps[0]), steps[1..], id);
    }
  }

  /** Until then no create is given the id, however full the store is. */
  lemma {:induction false} LostIdIsNotOffered(nvs: Nvs, steps: seq<Step>, id: nat)
    requires IsSlot(id) && Lost(Abs(nvs), id)
    requires forall k :: 0 <= k < |steps| ==> !GivesBack(steps[k], id)
    ensures Lost(Abs(CrashRun(nvs, steps)), id) && NextId(CrashRun(nvs, steps)) != id
  {
    hide CrashRun, StateRun, NextId, GivesBack, Blobs, Taken;
    CrashRunRefines(nvs, steps);
    LostOver(Abs(nvs), steps, id);
    NextIdIsUntaken(CrashRun(nvs, steps));
  }

  /** A create fails exactly when groups and lost ids together fill the slots. */
  lemma CreateFailsExactly(nvs: Nvs)
    ensures NextId(nvs) == 0 <==>
            forall id: nat :: 1 <= id <= MAX_GROUPS ==> id in Groups(nvs) || Lost(Abs(nvs), id)
  {
    hide NextId, Taken, Blobs, Groups, Clamp;
    NextIdIsUntaken(nvs);
    ShownIsGroups(nvs);
    var free, m := LowestFree(Taken(nvs), 0), Shown(Abs(nvs));
    assert free != 0 ==> free !in Taken(nvs) && free !in m && !Lost(Abs(nvs), free);
    forall id: nat | 1 <= id <= MAX_GROUPS && id in Taken(nvs)
      ensures id in m || Lost(Abs(nvs), id)
    {
    }
  }

  // ---- Where grp_find shows what grp_load_all does not ---------------------

  /** A record is stored under the id, yet its bit is clear. */
  predicate Hidden(st: State, id: nat) {
    id in st.blobs && id !in st.taken
  }

  /** A cut create, or a cut save under an id not taken. */
  predicate Hides(st: State, s: Step, id: nat) {
    s.cut && !s.cmd.Delete? && Target(st, s.cmd) == id && id !in st.taken
  }

  lemma HiddenStep(st: State, s: Step, id: nat)
    requires IsSlot(id)
    ensures Hidden(StateExec(st, s), id) <==> if Target(st, s.cmd) == id then Hides(st, s, id) else Hidden(st, id)
  {
    hide LowestFree;
  }

  /** The state before step `k`. */
  function StateAt(st: State, steps: seq<Step>, k: nat): State
    requires k <= |steps|
  {
    StateRun(st, steps[..k])
  }

  /** Step `k` is about the id. */
  predicate About(st: State, steps: seq<Step>, k: nat, id: nat)
    requires k < |steps|
  {
    Target(StateAt(st, steps, k), steps[k].cmd) == id
  }

  /** The last step about the id was a cut create, or a cut save while the id was
      not taken. */
  ghost predicate LastHides(st: State, steps: seq<Step>, id: nat) {
    exists k: nat :: k < |steps| && Hides(StateAt(st, steps, k), steps[k], id) &&
      forall j: nat :: k < j < |steps| ==> !About(st, steps, j, id)
  }

  lemma {:induction false} StateRunAppend(st: State, steps: seq<Step>, s: Step)
    ensures StateRun(st, steps + [s]) == StateExec(StateRun(st, steps), s)
    decreases |steps|
  {
    hide StateExec;
    var all := steps + [s];
    if steps == [] {
      assert all[1..] == [];
    } else {
      assert all[1..] == steps[1..] + [s];
      StateRunAppend(StateExec(st, steps[0]), steps[1..], s);
    }
  }

  /** Over a whole run. */
  lemma {:induction false} HiddenOver(st: State, steps: seq<Step>, id: nat)
    requires IsSlot(id)
    ensures Hidden(StateRun(st, steps), id) <==>
            LastHides(st, steps, id) ||
            (Hidden(st, id) && forall j: nat :: j < |steps| ==> !About(st, steps, j, id))
  {
    hide Hidden, Hides, Target, StateExec, StateRun;
    if steps == [] {
      NoStep(st);
    } else {
      var n := |steps| - 1;
      var init, s := steps[..n], steps[n];
      assert steps == init + [s];
      HiddenOver(st, init, id);
      StateRunAppend(st, init, s);
      HiddenStep(StateRun(st, init), s, id);
      assert StateAt(st, steps, n) == StateRun(st, init);
      forall j: nat | j < n
        ensures StateAt(st, steps, j) == StateAt(st, init, j) && steps[j] == init[j]
        ensures About(st, steps, j, id) <==> About(st, init, j, id)
      {
        assert steps[..j] == init[..j];
      }
      LastStep(st, steps, id);
    }
  }

  lemma {:induction false} NoStep(st: State)
    ensures StateRun(st, []) == st
  {
  }

  lemma TheLast(st: State, steps: seq<Step>, id: nat) returns (k: nat)
    requires LastHides(st, steps, id)
    ensures k < |steps| && Hides(StateAt(st, steps, k), steps[k], id)
    ensures forall j: nat :: k < j < |steps| ==> !About(st, steps, j, id)
  {
    hide Hides, StateAt, About;
    k :| k < |steps| && Hides(StateAt(st, steps, k), steps[k], id) &&
      forall j: nat :: k < j < |steps| ==> !About(st, steps, j, id);
  }

  lemma LastStep(st: State, steps: seq<Step>, id: nat)
    requires steps != []
    ensures var n := |steps| - 1;
            LastHides(st, steps, id) <==>
            if About(st, steps, n, id) then Hides(StateAt(st, steps, n), steps[n], id)
            else LastHides(st, steps[..n], id)
  {
    hide Target, StateRun;
    var n := |steps| - 1;
    var init := steps[..n];
    forall j: nat | j < n
      ensures StateAt(st, steps, j) == StateAt(st, init, j) && steps[j] == init[j]
      ensures About(st, steps, j, id) <==> About(st, init, j, id)
    {
      assert steps[..j] == init[..j];
    }
    if LastHides(st, init, id) && !About(st, steps, n, id) {
      var k := TheLast(st, init, id);
      assert Hides(StateAt(st, steps, k), steps[k], id);
    }
    if LastHides(st, steps, id) && !About(st, steps, n, id) {
      var k := TheLast(st, steps, id);
      assert k < n && Hides(StateAt(st, init, k), init[k], id);
    }
  }

  /** After any commands from an empty flash, cut anywhere: grp_find and
      grp_load_all agree on an id exactly when the last step about it was neither a
      cut create nor a cut save while its bit was clear. */
  lemma {:induction false} FindAgreesExactly(steps: seq<Step>, id: nat)
    requires IsSlot(id)
    ensures var nvs := CrashRun(map[], steps);
            Visible(nvs, id) == (if Found(nvs, id).Some? then Some(Clamp(Found(nvs, id).value)) else None) <==>
            !LastHides(Abs(map[]), steps, id)
  {
    hide CrashRun, StateRun, Found, Visible, Marked, Blobs, Taken, Clamp, LastHides;
    var nvs := CrashRun(map[], steps);
    CrashRunRefines(map[], steps);
    HiddenOver(Abs(map[]), steps, id);
    EmptyHidesNothing(id);
    BlobIn(nvs, id);
    TakenAt(nvs, id);
    AgreeUnlessUnmarked(nvs, id);
  }

  lemma EmptyHidesNothing(id: nat)
    ensures !Hidden(Abs(map[]), id)
  {
    assert id !in Blobs(map[]);
  }
}
