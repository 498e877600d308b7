/** The abort handshake of one tag: aborters, the tickler and operation starters meet at the
    abort flag and the API mutex, one access at a time. */
module AbortHandshake {
  import opened Status

  /** Operations are numbered, so that a new one is never mistaken for the aborted one. */
  type Op = nat

  /** Where a thread stands. `target` is the operation in flight when the thread set the abort
      flag; `outer` says that it already held the (recursive) API mutex. */
  datatype Pc =
    | Idle
    // plc_tag_abort_impl
    | Requested(target: Option<Op>, outer: bool)   // flag set, about to lock
    | Locked(target: Option<Op>, outer: bool)      // about to test the flag
    | SawFlag(target: Option<Op>, outer: bool)     // about to clear the flag
    | FlagCleared(target: Option<Op>, outer: bool) // about to clear the in-flight flags
    | Served(target: Option<Op>, outer: bool)      // about to unlock
    | Skipped(target: Option<Op>, outer: bool)     // somebody else served it, about to unlock
    | Returned(target: Option<Op>)
    // plc_tag_read, plc_tag_write
    | Starter | Started | Undo(target: Option<Op>)
    // plc_tag_generic_tickler
    | TickLocked | TickAborting | TickCleared | TickDone | TickRest

  datatype State = State(
    abortRequested: bool, inFlight: Option<Op>, nextOp: Op, mutex: Option<nat>, pcs: seq<Pc>)

  datatype Step =
    | Request(t: nat) | Lock(t: nat) | Test(t: nat) | ClearFlag(t: nat) | ClearFlight(t: nat) | Unlock(t: nat)
    | UndoStart(t: nat) | Finish(t: nat)
    | Begin(t: nat) | StartOp(t: nat) | StartOk(t: nat) | StartFail(t: nat)
    | TryLock(t: nat) | TickTest(t: nat) | TickClearFlight(t: nat) | TickClearFlag(t: nat) | TickStart(t: nat)
    | TickUnlock(t: nat)
    | Complete(t: nat)  // the protocol finishes or drops the operation at any time

  predicate Holds(pc: Pc) {
    match pc
    case Idle => false
    case Requested(_, outer) => outer
    case Returned(_) => false
    case _ => true
  }

  predicate Enabled(s: State, step: Step) {
    && step.t < |s.pcs|
    && var pc := s.pcs[step.t];
    match step
    case Request(_) => pc.Idle?
    case Lock(_) => pc.Requested? && (pc.outer || s.mutex.None?)
    case Test(_) => pc.Locked?
    case ClearFlag(_) => pc.SawFlag?
    case ClearFlight(_) => pc.FlagCleared?
    case Unlock(_) => pc.Served? || pc.Skipped?
    case UndoStart(_) => pc.Undo?
    case Finish(_) => pc.Returned?
    case Begin(_) => pc.Idle? && s.mutex.None?
    case StartOp(_) => pc.Starter?
    case StartOk(_) => pc.Started?
    case StartFail(_) => pc.Started?
    case TryLock(_) => pc.Idle? && s.mutex.None?
    case TickTest(_) => pc.TickLocked?
    case TickClearFlight(_) => pc.TickAborting?
    case TickClearFlag(_) => pc.TickCleared?
    case TickStart(_) => pc.TickRest? && s.inFlight.None?
    case TickUnlock(_) => pc.TickDone? || pc.TickRest?
    case Complete(_) => true
  }

  function SetPc(s: State, t: nat, pc: Pc): State
    requires t < |s.pcs|
  {
    s.(pcs := s.pcs[t := pc])
  }

  function StartNew(s: State): State {
    s.(inFlight := Some(s.nextOp), nextOp := s.nextOp + 1)
  }

  function Next(s: State, step: Step): State
    requires Enabled(s, step)
  {
    var t, pc := step.t, s.pcs[step.t];
    match step
    case Request(_) => SetPc(s, t, Requested(s.inFlight, false)).(abortRequested := true)
    case Lock(_) => SetPc(s, t, Locked(pc.target, pc.outer)).(mutex := Some(t))
    case Test(_) =>
      SetPc(s, t, if s.abortRequested then SawFlag(pc.target, pc.outer) else Skipped(pc.target, pc.outer))
    case ClearFlag(_) => SetPc(s, t, FlagCleared(pc.target, pc.outer)).(abortRequested := false)
    case ClearFlight(_) => SetPc(s, t, Served(pc.target, pc.outer)).(inFlight := None)
    case Unlock(_) =>
      if pc.outer then SetPc(s, t, Undo(pc.target)) else SetPc(s, t, Returned(pc.target)).(mutex := None)
    case UndoStart(_) => SetPc(s, t, Returned(pc.target)).(inFlight := None, mutex := None)
    case Finish(_) => SetPc(s, t, Idle)
    case Begin(_) => SetPc(s, t, Starter).(mutex := Some(t))
    case StartOp(_) => if s.inFlight.None? then StartNew(SetPc(s, t, Started)) else SetPc(s, t, Idle).(mutex := None)
    case StartOk(_) => SetPc(s, t, Idle).(mutex := None)
    case StartFail(_) => SetPc(s, t, Requested(s.inFlight, true)).(abortRequested := true)
    case TryLock(_) => SetPc(s, t, TickLocked).(mutex := Some(t))
    case TickTest(_) => SetPc(s, t, if s.abortRequested then TickAborting else TickRest)
    case TickClearFlight(_) => SetPc(s, t, TickCleared).(inFlight := None)
    case TickClearFlag(_) => SetPc(s, t, TickDone).(abortRequested := false)
    case TickStart(_) => StartNew(s)
    case TickUnlock(_) => SetPc(s, t, Idle).(mutex := None)
    case Complete(_) => s.(inFlight := None)
  }

  /** The mutex is held by exactly the thread whose position says so. */
  ghost predicate MutexInv(s: State) {
    forall t :: 0 <= t < |s.pcs| ==> (Holds(s.pcs[t]) <==> s.mutex == Some(t))
  }

  predicate Gone(s: State, target: Option<Op>) {
    target.Some? ==> s.inFlight != target
  }

  /** Some thread has cleared the flag and is about to clear the in-flight flags. */
  ghost predicate Clearing(s: State) {
    exists u :: 0 <= u < |s.pcs| && s.pcs[u].FlagCleared?
  }

  /** What each position of the handshake has secured about its target. */
  ghost predicate Secured(s: State, pc: Pc) {
    match pc
    case Requested(target, _) => Gone(s, target) || s.abortRequested || Clearing(s)
    case Locked(target, _) => Gone(s, target) || s.abortRequested
    case Served(target, _) => Gone(s, target)
    case Skipped(target, _) => Gone(s, target)
    case Undo(target) => Gone(s, target)
    case Returned(target) => Gone(s, target)
    case TickCleared => s.inFlight.None?
    case _ => true
  }

  /** Targets are operations of the past. */
  predicate PastTarget(s: State, pc: Pc) {
    match pc
    case Requested(target, _) => target.Some? ==> target.value < s.nextOp
    case Locked(target, _) => target.Some? ==> target.value < s.nextOp
    case SawFlag(target, _) => target.Some? ==> target.value < s.nextOp
    case FlagCleared(target, _) => target.Some? ==> target.value < s.nextOp
    case Served(target, _) => target.Some? ==> target.value < s.nextOp
    case Skipped(target, _) => target.Some? ==> target.value < s.nextOp
    case Undo(target) => target.Some? ==> target.value < s.nextOp
    case Returned(target) => target.Some? ==> target.value < s.nextOp
    case _ => true
  }

  ghost predicate Inv(s: State) {
    && MutexInv(s)
    && (s.inFlight.Some? ==> s.inFlight.value < s.nextOp)
    && forall t :: 0 <= t < |s.pcs| ==> Secured(s, s.pcs[t]) && PastTarget(s, s.pcs[t])
  }

  ghost predicate Init(s: State) {
    && !s.abortRequested && s.inFlight.None? && s.mutex.None?
    && forall t :: 0 <= t < |s.pcs| ==> s.pcs[t].Idle?
  }

  lemma MutexStep(s: State, step: Step)
    requires MutexInv(s) && Enabled(s, step)
    ensures MutexInv(Next(s, step))
  {
    var s' := Next(s, step);
    assert Holds(s.pcs[step.t]) <==> s.mutex == Some(step.t);
    forall t | 0 <= t < |s'.pcs| && t != step.t
      ensures Holds(s'.pcs[t]) <==> s'.mutex == Some(t)
    {
      assert s'.pcs[t] == s.pcs[t];
    }
  }

  /** Only the holder of the mutex clears the flag, starts an operation or leaves FlagCleared. */
  lemma ClearingStep(s: State, step: Step)
    requires MutexInv(s) && Enabled(s, step) && Clearing(s)
    ensures Clearing(Next(s, step)) || Next(s, step).inFlight.None?
  {
    var u :| 0 <= u < |s.pcs| && s.pcs[u].FlagCleared?;
    if step.t != u {
      assert Next(s, step).pcs[u].FlagCleared?;
    } else {
      assert step.ClearFlight? || step.Complete?;
    }
  }

  /** A thread that can have the mutex is the only one that can be clearing. */
  lemma NobodyClearing(s: State, t: nat)
    requires MutexInv(s) && t < |s.pcs| && !s.pcs[t].FlagCleared? && (s.mutex.None? || Holds(s.pcs[t]))
    ensures !Clearing(s)
  {
  }

  lemma OthersSecured(s: State, step: Step, t: nat)
    requires Inv(s) && Enabled(s, step) && t < |s.pcs| && t != step.t
    ensures Secured(Next(s, step), s.pcs[t])
  {
    var s', pc := Next(s, step), s.pcs[t];
    assert Secured(s, pc) && PastTarget(s, pc);
    assert MutexInv(s);
    if Clearing(s) {
      ClearingStep(s, step);
    }
    if step.ClearFlag? {
      assert s'.pcs[step.t].FlagCleared?;
    } else if step.TickClearFlag? {
      assert Secured(s, s.pcs[step.t]);
    }
  }

  lemma SelfSecured(s: State, step: Step)
    requires Inv(s) && Enabled(s, step)
    ensures Secured(Next(s, step), Next(s, step).pcs[step.t])
  {
    var s', pc := Next(s, step), s.pcs[step.t];
    assert Secured(s, pc) && PastTarget(s, pc);
    assert MutexInv(s);
    if step.Lock? {
      NobodyClearing(s, step.t);
    }
    if step.Complete? && Clearing(s) {
      ClearingStep(s, step);
    }
  }

  lemma InvStep(s: State, step: Step)
    requires Inv(s) && Enabled(s, step)
    ensures Inv(Next(s, step))
  {
    var s' := Next(s, step);
    MutexStep(s, step);
    forall t | 0 <= t < |s'.pcs|
      ensures Secured(s', s'.pcs[t]) && PastTarget(s', s'.pcs[t])
    {
      assert PastTarget(s, s.pcs[t]);
      if t == step.t {
        SelfSecured(s, step);
      } else {
        OthersSecured(s, step, t);
      }
    }
  }

  ghost predicate Schedule(s: State, steps: seq<Step>, s': State)
    decreases |steps|
  {
    if steps == [] then s' == s
    else Enabled(s, steps[0]) && Schedule(Next(s, steps[0]), steps[1..], s')
  }

  lemma {:induction false} InvRun(s: State, steps: seq<Step>, s': State)
    requires Inv(s) && Schedule(s, steps, s')
    ensures Inv(s')
    decreases |steps|
  {
    if steps != [] {
      InvStep(s, steps[0]);
      InvRun(Next(s, steps[0]), steps[1..], s');
    }
  }

  /** Whoever served the request, and wherever it landed: once plc_tag_abort_impl has returned,
      the operation that was in flight when its flag was set is no longer in flight. */
  lemma AbortedIsGone(s: State, steps: seq<Step>, s': State, t: nat)
    requires Init(s) && Schedule(s, steps, s') && t < |s'.pcs|
    ensures s'.pcs[t].Returned? && s'.pcs[t].target.Some? ==> s'.inFlight != s'.pcs[t].target
    ensures s'.pcs[t].Undo? && s'.pcs[t].target.Some? ==> s'.inFlight != s'.pcs[t].target
    ensures forall u :: 0 <= u < |s'.pcs| && u != t ==> !(Holds(s'.pcs[t]) && Holds(s'.pcs[u]))
  {
    InvRun(s, steps, s');
    assert Secured(s', s'.pcs[t]);
  }

  // Undisturbed runs: each way through the handshake does what it is for.

  lemma Before(s: State, step: Step, steps: seq<Step>, s': State) returns (all: seq<Step>)
    requires Enabled(s, step) && Schedule(Next(s, step), steps, s')
    ensures all == [step] + steps && Schedule(s, all, s')
  {
    all := [step] + steps;
    assert all[1..] == steps;
  }

  /** The tickler serves a request it finds: nothing is in flight any more and the flag is down. */
  lemma TicklerServes(s: State, t: nat) returns (steps: seq<Step>, s': State)
    requires t < |s.pcs| && s.pcs[t].Idle? && s.mutex.None? && s.abortRequested
    ensures steps == [TryLock(t), TickTest(t), TickClearFlight(t), TickClearFlag(t), TickUnlock(t)]
    ensures Schedule(s, steps, s') && s' == s.(inFlight := None, abortRequested := false)
  {
    var s1 := Next(s, TryLock(t));
    var s2 := Next(s1, TickTest(t));
    var s3 := Next(s2, TickClearFlight(t));
    var s4 := Next(s3, TickClearFlag(t));
    s' := Next(s4, TickUnlock(t));
    assert s'.pcs == s.pcs;
    steps := Before(s4, TickUnlock(t), [], s');
    steps := Before(s3, TickClearFlag(t), steps, s');
    steps := Before(s2, TickClearFlight(t), steps, s');
    steps := Before(s1, TickTest(t), steps, s');
    steps := Before(s, TryLock(t), steps, s');
  }

  /** Without a request it leaves what is in flight alone and may start an operation of its own. */
  lemma TicklerStarts(s: State, t: nat) returns (steps: seq<Step>, s': State)
    requires t < |s.pcs| && s.pcs[t].Idle? && s.mutex.None? && !s.abortRequested && s.inFlight.None?
    ensures steps == [TryLock(t), TickTest(t), TickStart(t), TickUnlock(t)]
    ensures Schedule(s, steps, s') && s' == s.(inFlight := Some(s.nextOp), nextOp := s.nextOp + 1)
  {
    var s1 := Next(s, TryLock(t));
    var s2 := Next(s1, TickTest(t));
    var s3 := Next(s2, TickStart(t));
    s' := Next(s3, TickUnlock(t));
    assert s'.pcs == s.pcs;
    steps := Before(s3, TickUnlock(t), [], s');
    steps := Before(s2, TickStart(t), steps, s');
    steps := Before(s1, TickTest(t), steps, s');
    steps := Before(s, TryLock(t), steps, s');
  }

  /** From the lock to the unlock of an aborter whose request is still there. */
  lemma ServeRun(s: State, t: nat, served: State, more: seq<Step>, s': State) returns (steps: seq<Step>)
    requires t < |s.pcs| && s.pcs[t].Requested? && s.abortRequested
    requires s.mutex == if s.pcs[t].outer then Some(t) else None
    requires var r := s.pcs[t];
             served == s.(inFlight := None, abortRequested := false,
                          pcs := s.pcs[t := if r.outer then Undo(r.target) else Returned(r.target)])
    requires Schedule(served, more, s')
    ensures steps == [Lock(t), Test(t), ClearFlag(t), ClearFlight(t), Unlock(t)] + more && Schedule(s, steps, s')
  {
    var r := s.pcs[t];
    var saw := s.(mutex := Some(t), pcs := s.pcs[t := SawFlag(r.target, r.outer)]);
    steps := ClearRun(saw, t, served, more, s');
    var s1 := Next(s, Lock(t));
    assert Next(s1, Test(t)).pcs == saw.pcs;
    steps := Before(s1, Test(t), steps, s');
    steps := Before(s, Lock(t), steps, s');
  }

  lemma ClearRun(s: State, t: nat, served: State, more: seq<Step>, s': State) returns (steps: seq<Step>)
    requires t < |s.pcs| && s.pcs[t].SawFlag? && s.mutex == Some(t)
    requires var r := s.pcs[t];
             served == s.(inFlight := None, abortRequested := false, mutex := if r.outer then Some(t) else None,
                          pcs := s.pcs[t := if r.outer then Undo(r.target) else Returned(r.target)])
    requires Schedule(served, more, s')
    ensures steps == [ClearFlag(t), ClearFlight(t), Unlock(t)] + more && Schedule(s, steps, s')
  {
    var s1 := Next(s, ClearFlag(t));
    var s2 := Next(s1, ClearFlight(t));
    assert Next(s2, Unlock(t)).pcs == served.pcs;
    steps := Before(s2, Unlock(t), more, s');
    steps := Before(s1, ClearFlight(t), steps, s');
    steps := Before(s, ClearFlag(t), steps, s');
  }

  /** An aborter whose request is still there serves it itself. */
  lemma AborterServes(s: State, t: nat) returns (steps: seq<Step>, s': State)
    requires t < |s.pcs| && s.pcs[t].Idle? && s.mutex.None?
    ensures steps == [Request(t), Lock(t), Test(t), ClearFlag(t), ClearFlight(t), Unlock(t), Finish(t)]
    ensures Schedule(s, steps, s') && s' == s.(inFlight := None, abortRequested := false)
  {
    var s1 := Next(s, Request(t));
    var served := s.(inFlight := None, abortRequested := false, pcs := s1.pcs[t := Returned(s.inFlight)]);
    s' := Next(served, Finish(t));
    assert s'.pcs == s.pcs;
    steps := Before(served, Finish(t), [], s');
    steps := ServeRun(s1, t, served, steps, s');
    steps := Before(s, Request(t), steps, s');
  }

  /** One that finds its request served leaves the operation in flight alone: it may be a new one. */
  lemma AborterSkips(s: State, t: nat) returns (steps: seq<Step>, s': State)
    requires t < |s.pcs| && s.pcs[t].Locked? && !s.pcs[t].outer && !s.abortRequested
    ensures steps == [Test(t), Unlock(t)] && Schedule(s, steps, s')
    ensures s' == s.(mutex := None, pcs := s.pcs[t := Returned(s.pcs[t].target)])
  {
    var s1 := Next(s, Test(t));
    s' := Next(s1, Unlock(t));
    assert s'.pcs == s.pcs[t := Returned(s.pcs[t].target)];
    steps := Before(s1, Unlock(t), [], s');
    steps := Before(s, Test(t), steps, s');
  }

  /** A start puts a new operation in flight. */
  lemma StarterStarts(s: State, t: nat) returns (steps: seq<Step>, s': State)
    requires t < |s.pcs| && s.pcs[t].Idle? && s.mutex.None? && s.inFlight.None?
    ensures steps == [Begin(t), StartOp(t), StartOk(t)] && Schedule(s, steps, s')
    ensures s' == s.(inFlight := Some(s.nextOp), nextOp := s.nextOp + 1)
  {
    var s1 := Next(s, Begin(t));
    var s2 := Next(s1, StartOp(t));
    s' := Next(s2, StartOk(t));
    assert s'.pcs == s.pcs;
    steps := Before(s2, StartOk(t), [], s');
    steps := Before(s1, StartOp(t), steps, s');
    steps := Before(s, Begin(t), steps, s');
  }

  /** While an operation is in flight another start is turned away. */
  lemma StarterIsBusy(s: State, t: nat) returns (steps: seq<Step>, s': State)
    requires t < |s.pcs| && s.pcs[t].Idle? && s.mutex.None? && s.inFlight.Some?
    ensures steps == [Begin(t), StartOp(t)] && Schedule(s, steps, s') && s' == s
  {
    var s1 := Next(s, Begin(t));
    s' := Next(s1, StartOp(t));
    assert s'.pcs == s.pcs;
    steps := Before(s1, StartOp(t), [], s');
    steps := Before(s, Begin(t), steps, s');
  }

  /** Left alone, an operation is completed by the protocol and makes way for the next one. */
  lemma OperationRuns(s: State, t: nat, u: nat) returns (steps: seq<Step>, s': State)
    requires t < |s.pcs| && u < |s.pcs| && s.pcs[t].Idle? && s.mutex.None? && s.inFlight.None?
    ensures steps == [Begin(t), StartOp(t), StartOk(t), Complete(u)] && Schedule(s, steps, s')
    ensures s' == s.(nextOp := s.nextOp + 1)
  {
    var s1 := Next(s, Begin(t));
    var s2 := Next(s1, StartOp(t));
    var s3 := Next(s2, StartOk(t));
    s' := Next(s3, Complete(u));
    assert s'.pcs == s.pcs;
    steps := Before(s3, Complete(u), [], s');
    steps := Before(s2, StartOk(t), steps, s');
    steps := Before(s1, StartOp(t), steps, s');
    steps := Before(s, Begin(t), steps, s');
  }

  /** A start that fails aborts its own operation under the mutex it already holds. */
  lemma FailedStartAborts(s: State, t: nat) returns (steps: seq<Step>, s': State)
    requires t < |s.pcs| && s.pcs[t].Started? && s.mutex == Some(t)
    ensures steps == [StartFail(t), Lock(t), Test(t), ClearFlag(t), ClearFlight(t), Unlock(t), UndoStart(t), Finish(t)]
    ensures Schedule(s, steps, s')
    ensures s' == s.(inFlight := None, abortRequested := false, mutex := None, pcs := s.pcs[t := Idle])
  {
    var s1 := Next(s, StartFail(t));
    var served := s.(inFlight := None, abortRequested := false, pcs := s1.pcs[t := Undo(s.inFlight)]);
    var s2 := Next(served, UndoStart(t));
    s' := Next(s2, Finish(t));
    assert s'.pcs == s.pcs[t := Idle];
    steps := Before(s2, Finish(t), [], s');
    steps := Before(served, UndoStart(t), steps, s');
    steps := ServeRun(s1, t, served, steps, s');
    steps := Before(s, StartFail(t), steps, s');
  }
}
