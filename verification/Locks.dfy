/** The two kinds of locks: the admission mutex and one semaphore per workspace
    (internal/workspace/file_access.go), as the operations of
    internal/workspace/workspace.go acquire and release them. */
module Locks {
  import opened Domain

  /** `Start` also stands for a creation that starts its workspace, `Change` for
      stop, delete and one row of the timeouts, `Files` for file access. */
  datatype Kind = Start | Change | Files | Creation

  datatype Phase = AwaitAdmission | AwaitLock | Inside | Leaving | Finished

  datatype Op = Op(kind: Kind, workspace: string, phase: Phase)

  /** `held` maps a workspace to the operation in its semaphore. */
  datatype System = System(ops: map<nat, Op>, admission: Option<nat>, held: map<string, nat>)

  datatype Step = Begin(op: nat, kind: Kind, workspace: string) | Advance(op: nat) | Cancel(op: nat)

  /** A start takes admission first, a change takes the workspace first. */
  function FirstPhase(kind: Kind): Phase {
    match kind
    case Start => AwaitAdmission
    case Creation => AwaitAdmission
    case Change => AwaitLock
    case Files => AwaitLock
  }

  /** The phase after this one; locks are released in the reverse order. */
  function NextPhase(kind: Kind, phase: Phase): Phase {
    match (kind, phase)
    case (Start, AwaitAdmission) => AwaitLock
    case (Change, AwaitLock) => AwaitAdmission
    case (_, AwaitAdmission) => Inside
    case (_, AwaitLock) => Inside
    case (Start, Inside) => Leaving
    case (Change, Inside) => Leaving
    case (_, _) => Finished
  }

  predicate HoldsAdmission(op: Op) {
    match op.kind
    case Start => op.phase == AwaitLock || op.phase == Inside || op.phase == Leaving
    case Change => op.phase == Inside
    case Creation => op.phase == Inside
    case Files => false
  }

  predicate HoldsLock(op: Op) {
    match op.kind
    case Start => op.phase == Inside
    case Change => op.phase == AwaitAdmission || op.phase == Inside || op.phase == Leaving
    case Creation => false
    case Files => op.phase == Inside
  }

  ghost predicate Enabled(s: System, step: Step) {
    match step
    case Begin(k, _, _) => k !in s.ops
    case Advance(k) =>
      k in s.ops && s.ops[k].phase != Finished
      && (s.ops[k].phase == AwaitAdmission ==> s.admission.None?)
      && (s.ops[k].phase == AwaitLock ==> s.ops[k].workspace !in s.held)
    // Only the wait for a semaphore observes the request's context.
    case Cancel(k) => k in s.ops && s.ops[k].phase == AwaitLock
  }

  ghost function Apply(s: System, step: Step): System
    requires Enabled(s, step)
  {
    match step
    case Begin(k, kind, workspace) => s.(ops := s.ops[k := Op(kind, workspace, FirstPhase(kind))])
    case Cancel(k) =>
      var op := s.ops[k];
      s.(ops := s.ops[k := op.(phase := if op.kind == Start then Leaving else Finished)])
    case Advance(k) =>
      var op := s.ops[k];
      var moved := s.(ops := s.ops[k := op.(phase := NextPhase(op.kind, op.phase))]);
      match op.phase
      case AwaitAdmission => moved.(admission := Some(k))
      case AwaitLock => moved.(held := s.held[op.workspace := k])
      case Inside => if op.kind == Start || op.kind == Files then moved.(held := s.held - {op.workspace}) else moved.(admission := None)
      case Leaving => if op.kind == Start then moved.(admission := None) else moved.(held := s.held - {op.workspace})
      case Finished => moved
  }

  ghost predicate AdmissionOk(s: System) {
    && (forall k :: k in s.ops && HoldsAdmission(s.ops[k]) ==> s.admission == Some(k))
    && (s.admission.Some? ==> s.admission.value in s.ops && HoldsAdmission(s.ops[s.admission.value]))
  }

  ghost predicate HeldOk(s: System) {
    && (forall k :: k in s.ops && HoldsLock(s.ops[k]) ==> s.ops[k].workspace in s.held && s.held[s.ops[k].workspace] == k)
    && (forall w :: w in s.held ==> s.held[w] in s.ops && HoldsLock(s.ops[s.held[w]]) && s.ops[s.held[w]].workspace == w)
  }

  predicate PhaseOk(op: Op) {
    && (op.kind == Creation ==> op.phase != AwaitLock && op.phase != Leaving)
    && (op.kind == Files ==> op.phase != AwaitAdmission && op.phase != Leaving)
  }

  /** The locks are held by exactly the operations whose phase says so. */
  ghost predicate Inv(s: System) {
    AdmissionOk(s) && HeldOk(s) && forall k :: k in s.ops ==> PhaseOk(s.ops[k])
  }

  lemma StepKeepsAdmission(s: System, step: Step)
    requires Inv(s) && Enabled(s, step)
    ensures AdmissionOk(Apply(s, step))
  {
  }

  /** Changing one operation's phase together with its semaphore keeps them in step. */
  lemma HeldTogether(s: System, after: System, k: nat, op: Op)
    requires HeldOk(s) && k in s.ops && op.workspace == s.ops[k].workspace && after.ops == s.ops[k := op]
    requires HoldsLock(op) && !HoldsLock(s.ops[k]) ==> op.workspace !in s.held
    requires after.held == if HoldsLock(op) == HoldsLock(s.ops[k]) then s.held
                           else if HoldsLock(op) then s.held[op.workspace := k] else s.held - {op.workspace}
    ensures HeldOk(after)
  {
  }

  lemma AdvanceKeepsHeld(s: System, k: nat)
    requires Inv(s) && Enabled(s, Advance(k))
    ensures HeldOk(Apply(s, Advance(k)))
  {
    var op := s.ops[k];
    assert PhaseOk(op);
    HeldTogether(s, Apply(s, Advance(k)), k, op.(phase := NextPhase(op.kind, op.phase)));
  }

  lemma StepKeepsHeld(s: System, step: Step)
    requires Inv(s) && Enabled(s, step)
    ensures HeldOk(Apply(s, step))
  {
    if step.Advance? {
      AdvanceKeepsHeld(s, step.op);
    }
  }

  lemma StepKeepsPhases(s: System, step: Step)
    requires Inv(s) && Enabled(s, step)
    ensures forall k :: k in Apply(s, step).ops ==> PhaseOk(Apply(s, step).ops[k])
  {
  }

  lemma StepKeepsInv(s: System, step: Step)
    requires Inv(s) && Enabled(s, step)
    ensures Inv(Apply(s, step))
  {
    StepKeepsAdmission(s, step);
    StepKeepsHeld(s, step);
    StepKeepsPhases(s, step);
  }

  /** At most one operation is past admission, and at most one file stream or
      lifecycle body runs on a workspace. */
  lemma MutualExclusion(s: System, k: nat, l: nat)
    requires Inv(s) && k in s.ops && l in s.ops && k != l
    ensures !(HoldsAdmission(s.ops[k]) && HoldsAdmission(s.ops[l]))
    ensures s.ops[k].workspace == s.ops[l].workspace ==> !(HoldsLock(s.ops[k]) && HoldsLock(s.ops[l]))
    ensures s.ops[k].workspace == s.ops[l].workspace && s.ops[k].phase == Inside && s.ops[l].phase == Inside ==>
              s.ops[k].kind == Creation || s.ops[l].kind == Creation
  {
  }

  // ---------------------------------------------------------------------
  // Progress

  ghost predicate Unfinished(s: System, k: nat) {
    k in s.ops && s.ops[k].phase != Finished
  }

  /** A start inside admission waits for a workspace whose holder, a change, waits for admission. */
  ghost predicate Deadlock(s: System, starter: nat, changer: nat) {
    && starter in s.ops && s.ops[starter].kind == Start && s.ops[starter].phase == AwaitLock
    && changer in s.ops && s.ops[changer].kind == Change && s.ops[changer].phase == AwaitAdmission
    && s.ops[starter].workspace == s.ops[changer].workspace
  }

  ghost predicate SomeAdvance(s: System) {
    exists k :: Enabled(s, Advance(k))
  }

  /** Without cancellation the only way to stand still is that deadlock. */
  lemma StuckOnlyInDeadlock(s: System, k: nat) returns (starter: nat, changer: nat)
    requires Inv(s) && Unfinished(s, k) && !SomeAdvance(s)
    ensures Deadlock(s, starter, changer)
  {
    assert !Enabled(s, Advance(k));
    if s.ops[k].phase == AwaitAdmission {
      starter := s.admission.value;
    } else {
      var holder := s.held[s.ops[k].workspace];
      assert !Enabled(s, Advance(holder));
      starter := s.admission.value;
    }
    assert !Enabled(s, Advance(starter));
    assert s.ops[starter].phase == AwaitLock && s.ops[starter].kind == Start;
    changer := s.held[s.ops[starter].workspace];
    assert !Enabled(s, Advance(changer));
  }

  /** Nothing but cancelling the start's wait ends the deadlock, and until then
      no other operation is admitted. */
  lemma DeadlockPersists(s: System, step: Step, starter: nat, changer: nat)
    requires Inv(s) && Deadlock(s, starter, changer) && Enabled(s, step) && step != Cancel(starter)
    ensures Deadlock(Apply(s, step), starter, changer)
    ensures step.Advance? ==> s.ops[step.op].phase != AwaitAdmission
  {
  }

  /** From any state in which the locks are free, one start and one stop of the
      same workspace can reach it. */
  lemma DeadlockIsReachable(s: System, k: nat, l: nat, w: string)
    requires Inv(s) && s.admission.None? && w !in s.held && k !in s.ops && l !in s.ops && k != l
    ensures var a := Apply(s, Begin(k, Start, w));
            var b := Apply(a, Begin(l, Change, w));
            Enabled(b, Advance(k)) &&
            var c := Apply(b, Advance(k));
            Enabled(c, Advance(l)) && Deadlock(Apply(c, Advance(l)), k, l)
  {
  }

  /** With cancellation as a step, every state with an unfinished operation moves on. */
  lemma SomethingCanHappen(s: System, k: nat) returns (step: Step)
    requires Inv(s) && Unfinished(s, k)
    ensures Enabled(s, step) && !step.Begin?
  {
    if SomeAdvance(s) {
      var l :| Enabled(s, Advance(l));
      step := Advance(l);
    } else {
      var starter, changer := StuckOnlyInDeadlock(s, k);
      step := Cancel(starter);
    }
  }

  function StepsLeft(op: Op): nat {
    match op.phase
    case AwaitAdmission => if op.kind == Start then 4 else 3
    case AwaitLock => if op.kind == Change then 4 else 3
    case Inside => 2
    case Leaving => 1
    case Finished => 0
  }

  ghost function Work(ops: map<nat, Op>): nat
    decreases |ops|
  {
    if ops == map[] then 0
    else
      var k :| k in ops;
      assert (ops - {k}).Keys == ops.Keys - {k};
      StepsLeft(ops[k]) + Work(ops - {k})
  }

  lemma {:induction false} WorkWithout(ops: map<nat, Op>, k: nat)
    requires k in ops
    ensures Work(ops) == StepsLeft(ops[k]) + Work(ops - {k})
    decreases |ops|
  {
    var first :| first in ops && Work(ops) == StepsLeft(ops[first]) + Work(ops - {first});
    if first != k {
      assert (ops - {first}).Keys == ops.Keys - {first};
      assert (ops - {k}).Keys == ops.Keys - {k};
      WorkWithout(ops - {first}, k);
      WorkWithout(ops - {k}, first);
      assert ops - {first} - {k} == ops - {k} - {first};
    }
  }

  lemma OneOpLess(ops: map<nat, Op>, k: nat, op: Op)
    requires k in ops && StepsLeft(op) < StepsLeft(ops[k])
    ensures Work(ops[k := op]) < Work(ops)
  {
    WorkWithout(ops, k);
    WorkWithout(ops[k := op], k);
    assert ops[k := op] - {k} == ops - {k};
  }

  /** Each advance or cancellation leaves less to do. */
  lemma StepDoesWork(s: System, step: Step)
    requires Inv(s) && Enabled(s, step) && !step.Begin?
    ensures Work(Apply(s, step).ops) < Work(s.ops)
  {
    var op := s.ops[step.op];
    assert PhaseOk(op);
    var phase := if step.Advance? then NextPhase(op.kind, op.phase) else if op.kind == Start then Leaving else Finished;
    OneOpLess(s.ops, step.op, op.(phase := phase));
  }

  /** Every operation finishes: from any state the pending operations can all run
      to their end, in no more steps than there is work left. */
  lemma {:induction false} EverythingCanFinish(s: System) returns (trace: seq<System>, steps: seq<Step>)
    requires Inv(s)
    ensures |trace| == |steps| + 1 && trace[0] == s && |steps| <= Work(s.ops)
    ensures forall i :: 0 <= i < |steps| ==> Enabled(trace[i], steps[i]) && !steps[i].Begin? && trace[i + 1] == Apply(trace[i], steps[i])
    ensures forall k :: !Unfinished(trace[|steps|], k)
    decreases Work(s.ops)
  {
    if k :| Unfinished(s, k) {
      var step := SomethingCanHappen(s, k);
      StepDoesWork(s, step);
      StepKeepsInv(s, step);
      var rest, more := EverythingCanFinish(Apply(s, step));
      trace, steps := [s] + rest, [step] + more;
    } else {
      trace, steps := [s], [];
    }
  }

  // ---------------------------------------------------------------------
  // The semaphores

  class WorkspaceLocks {
    /** The semaphore of each workspace seen so far: whether its one slot is taken. */
    var semaphores: map<string, bool>

    ghost function Taken(): set<string>
      reads this
    {
      set w | w in semaphores && semaphores[w]
    }

    constructor ()
      ensures Taken() == {}
    {
      semaphores := map[];
    }

    /** lockForWorkspace: a workspace seen for the first time gets a free semaphore. */
    method LockForWorkspace(workspace: string)
      modifies this
      ensures workspace in semaphores && Taken() == old(Taken())
    {
      if workspace !in semaphores {
        semaphores := semaphores[workspace := false];
      }
    }

    /** acquireWorkspaceLock at the moment its select runs; `done` means that the
        context has ended, and `preferDone` settles the tie if the slot is free too. */
    method Acquire(workspace: string, done: bool, preferDone: bool) returns (ok: bool)
      requires workspace !in Taken() || done
      modifies this
      ensures ok <==> old(workspace !in Taken()) && !(done && preferDone)
      ensures Taken() == if ok then old(Taken()) + {workspace} else old(Taken())
    {
      LockForWorkspace(workspace);
      ok := !semaphores[workspace] && !(done && preferDone);
      if ok {
        semaphores := semaphores[workspace := true];
      }
    }

    method Release(workspace: string)
      requires workspace in Taken()
      modifies this
      ensures Taken() == old(Taken()) - {workspace}
    {
      semaphores := semaphores[workspace := false];
    }

    /** BeginFileAccess: the lock is kept only for a workspace that was found in a
        state with files to serve, and is free again after every refusal. */
    method BeginFileAccess(workspace: string, observed: Option<Observed>, done: bool,
                           preferDone: bool) returns (ok: bool)
      requires workspace !in Taken() || done
      modifies this
      ensures ok <==> old(workspace !in Taken()) && !(done && preferDone)
                      && (observed == Some(Running) || observed == Some(Stopped) || observed == Some(Exited))
      ensures Taken() == if ok then old(Taken()) + {workspace} else old(Taken())
    {
      ok := Acquire(workspace, done, preferDone);
      if !ok {
        return;
      }
      if observed == Some(Running) || observed == Some(Stopped) || observed == Some(Exited) {
        return true;
      }
      Release(workspace);
      return false;
    }
  }
}
