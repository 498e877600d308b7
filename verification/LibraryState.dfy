/** Starting and stopping the library: any number of threads race on one compare-and-set
    state word, each atomic access being a step of its own. */
module LibraryState {

  datatype Lib = Uninitialized | Initializing | Running | ShuttingDown

  datatype Module = RefCounts | Core | Ab | Modbus | Omron

  const INIT_ORDER := [RefCounts, Core, Ab, Modbus, Omron]
  const TEARDOWN_ORDER := [Ab, Modbus, Omron, Core, RefCounts]

  /** Where a thread stands in initialize_modules or destroy_modules. */
  datatype Pc =
    | Idle
    | Entered                 // about to read library_state on the fast path
    | Trying                  // about to compare-and-set UNINITIALIZED to INITIALIZING
    | Starting(k: nat)        // won; k modules are up
    | StartFailed             // a module failed; about to store UNINITIALIZED
    | Returned(ok: bool)
    | Stopping                // about to compare-and-set RUNNING to SHUTTING_DOWN
    | TearingDown(k: nat)     // won; k modules are down

  datatype State = State(lib: Lib, pcs: seq<Pc>, up: set<Module>, everFailed: bool)

  datatype Step =
    | CallInit(t: nat) | FastPath(t: nat) | CompareAndSet(t: nat)
    | StartModule(t: nat, ok: bool) | StartDone(t: nat) | StartUndo(t: nat)
    | CallDestroy(t: nat) | StopCas(t: nat) | StopModule(t: nat) | StopDone(t: nat)
    | Return(t: nat)

  predicate Enabled(s: State, step: Step) {
    && step.t < |s.pcs|
    && var pc := s.pcs[step.t];
    match step
    case CallInit(_) => pc.Idle?
    case FastPath(_) => pc.Entered?
    case CompareAndSet(_) => pc.Trying?
    case StartModule(_, _) => pc.Starting? && pc.k < |INIT_ORDER|
    case StartDone(_) => pc.Starting? && pc.k == |INIT_ORDER|
    case StartUndo(_) => pc.StartFailed?
    case CallDestroy(_) => pc.Idle?
    case StopCas(_) => pc.Stopping?
    case StopModule(_) => pc.TearingDown? && pc.k < |TEARDOWN_ORDER|
    case StopDone(_) => pc.TearingDown? && pc.k == |TEARDOWN_ORDER|
    case Return(_) => pc.Returned?
  }

  function Next(s: State, step: Step): State
    requires Enabled(s, step)
  {
    var t, pc := step.t, s.pcs[step.t];
    match step
    case CallInit(_) => s.(pcs := s.pcs[t := Entered])
    case FastPath(_) => s.(pcs := s.pcs[t := if s.lib.Running? then Returned(true) else Trying])
    case CompareAndSet(_) =>
      match s.lib {
        case Uninitialized => s.(lib := Initializing, pcs := s.pcs[t := Starting(0)])
        case Running => s.(pcs := s.pcs[t := Returned(true)])
        case _ => s  // sleep and try again
      }
    case StartModule(_, ok) =>
      if ok then s.(pcs := s.pcs[t := Starting(pc.k + 1)], up := s.up + {INIT_ORDER[pc.k]})
      else s.(pcs := s.pcs[t := StartFailed], everFailed := true)
    case StartDone(_) => s.(lib := Running, pcs := s.pcs[t := Returned(true)])
    case StartUndo(_) => s.(lib := Uninitialized, pcs := s.pcs[t := Returned(false)])
    case CallDestroy(_) => s.(pcs := s.pcs[t := Stopping])
    case StopCas(_) =>
      if s.lib.Running? then s.(lib := ShuttingDown, pcs := s.pcs[t := TearingDown(0)]) else s.(pcs := s.pcs[t := Idle])
    case StopModule(_) => s.(pcs := s.pcs[t := TearingDown(pc.k + 1)], up := s.up - {TEARDOWN_ORDER[pc.k]})
    case StopDone(_) => s.(lib := Uninitialized, pcs := s.pcs[t := Idle])
    case Return(_) => s.(pcs := s.pcs[t := Idle])
  }

  predicate InStart(pc: Pc) {
    pc.Starting? || pc.StartFailed?
  }

  predicate Inside(pc: Pc) {
    InStart(pc) || pc.TearingDown?
  }

  /** At most one thread is inside, and the state word says which way it is going. */
  ghost predicate Exclusive(s: State) {
    && (forall t, u :: 0 <= t < u < |s.pcs| ==> !(Inside(s.pcs[t]) && Inside(s.pcs[u])))
    && (s.lib.Initializing? <==> exists t :: 0 <= t < |s.pcs| && InStart(s.pcs[t]))
    && (s.lib.ShuttingDown? <==> exists t :: 0 <= t < |s.pcs| && s.pcs[t].TearingDown?)
  }

  function FirstOf(order: seq<Module>, k: nat): set<Module>
    requires k <= |order|
  {
    set i | 0 <= i < k :: order[i]
  }

  /** As long as no start has failed, the modules that are up are those the state word and the
      thread inside account for. */
  ghost predicate ModulesInStep(s: State) {
    && (s.lib.Running? ==> s.up == FirstOf(INIT_ORDER, 5))
    && (s.lib.Uninitialized? ==> s.up == {})
    && (forall t :: 0 <= t < |s.pcs| ==> !s.pcs[t].StartFailed?)
    && (forall t :: 0 <= t < |s.pcs| && s.pcs[t].Starting? ==>
          s.pcs[t].k <= |INIT_ORDER| && s.up == FirstOf(INIT_ORDER, s.pcs[t].k))
    && (forall t :: 0 <= t < |s.pcs| && s.pcs[t].TearingDown? ==>
          s.pcs[t].k <= |TEARDOWN_ORDER| && s.up == FirstOf(INIT_ORDER, 5) - FirstOf(TEARDOWN_ORDER, s.pcs[t].k))
  }

  ghost predicate Inv(s: State) {
    Exclusive(s) && (!s.everFailed ==> ModulesInStep(s))
  }

  ghost predicate Init(s: State) {
    s.lib.Uninitialized? && s.up == {} && !s.everFailed && forall t :: 0 <= t < |s.pcs| ==> s.pcs[t].Idle?
  }

  lemma ExclusiveStep(s: State, step: Step)
    requires Exclusive(s) && Enabled(s, step)
    ensures Exclusive(Next(s, step))
  {
    var s' := Next(s, step);
    assert forall t :: 0 <= t < |s.pcs| && t != step.t ==> s'.pcs[t] == s.pcs[t];
    if Inside(s'.pcs[step.t]) {
      assert !Inside(s.pcs[step.t]) ==> forall t :: 0 <= t < |s.pcs| ==> !Inside(s.pcs[t]);
    }
  }

  lemma FirstOfNext(order: seq<Module>, k: nat)
    requires k < |order|
    ensures FirstOf(order, k + 1) == FirstOf(order, k) + {order[k]}
  {
  }

  lemma OrdersCover()
    ensures FirstOf(INIT_ORDER, 5) == FirstOf(TEARDOWN_ORDER, 5)
    ensures FirstOf(INIT_ORDER, 0) == {} == FirstOf(TEARDOWN_ORDER, 0)
  {
    assert FirstOf(INIT_ORDER, 5) == {INIT_ORDER[0], INIT_ORDER[1], INIT_ORDER[2], INIT_ORDER[3], INIT_ORDER[4]};
    assert FirstOf(TEARDOWN_ORDER, 5)
        == {TEARDOWN_ORDER[0], TEARDOWN_ORDER[1], TEARDOWN_ORDER[2], TEARDOWN_ORDER[3], TEARDOWN_ORDER[4]};
  }

  lemma ModulesStep(s: State, step: Step)
    requires Inv(s) && Enabled(s, step) && !Next(s, step).everFailed
    ensures ModulesInStep(Next(s, step))
  {
    var s', pc := Next(s, step), s.pcs[step.t];
    OrdersCover();
    if step.StartModule? {
      FirstOfNext(INIT_ORDER, pc.k);
    } else if step.StopModule? {
      FirstOfNext(TEARDOWN_ORDER, pc.k);
    }
    assert forall t :: 0 <= t < |s.pcs| && t != step.t ==> s'.pcs[t] == s.pcs[t];
  }

  lemma InvStep(s: State, step: Step)
    requires Inv(s) && Enabled(s, step)
    ensures Inv(Next(s, step))
  {
    ExclusiveStep(s, step);
    if !Next(s, step).everFailed {
      ModulesStep(s, step);
    }
  }

  /** A run: the states a schedule goes through. */
  ghost predicate IsRun(run: seq<State>) {
    && |run| > 0 && Init(run[0])
    && forall i :: 0 <= i < |run| - 1 ==> StepTo(run[i], run[i + 1])
  }

  ghost predicate StepTo(s: State, s': State) {
    exists step :: Enabled(s, step) && s' == Next(s, step)
  }

  /** For any number of threads and any schedule: at most one thread is inside, and
      INITIALIZING and SHUTTING_DOWN hold exactly while one is. */
  lemma {:induction false} RunExclusive(run: seq<State>, i: nat)
    requires IsRun(run) && i < |run|
    ensures Inv(run[i])
  {
    if i > 0 {
      RunExclusive(run, i - 1);
      assert StepTo(run[i - 1], run[i - 1 + 1]);
      var step :| Enabled(run[i - 1], step) && run[i] == Next(run[i - 1], step);
      InvStep(run[i - 1], step);
    } else {
      OrdersCover();
    }
  }

  /** Until a start fails, a module is started only when it is down and stopped only when it is
      up, and RUNNING means that all five are up. */
  lemma ModulesNeverTwice(run: seq<State>, i: nat, step: Step)
    requires IsRun(run) && i < |run| && !run[i].everFailed && Enabled(run[i], step)
    ensures step.StartModule? ==> INIT_ORDER[run[i].pcs[step.t].k] !in run[i].up
    ensures step.StopModule? ==> TEARDOWN_ORDER[run[i].pcs[step.t].k] in run[i].up
    ensures run[i].lib.Running? ==> forall m: Module :: m in run[i].up
  {
    RunExclusive(run, i);
    AllModules();
    var s := run[i];
    if step.StartModule? {
      var k := s.pcs[step.t].k;
      assert s.up == FirstOf(INIT_ORDER, k);
      assert forall j :: 0 <= j < k ==> INIT_ORDER[j] != INIT_ORDER[k];
    } else if step.StopModule? {
      var k := s.pcs[step.t].k;
      assert s.up == FirstOf(INIT_ORDER, 5) - FirstOf(TEARDOWN_ORDER, k);
      assert forall j :: 0 <= j < k ==> TEARDOWN_ORDER[j] != TEARDOWN_ORDER[k];
    }
  }

  lemma AllModules()
    ensures forall m: Module :: m in FirstOf(INIT_ORDER, 5)
  {
    forall m: Module
      ensures m in FirstOf(INIT_ORDER, 5)
    {
      var i := match m case RefCounts => 0 case Core => 1 case Ab => 2 case Modbus => 3 case Omron => 4;
      assert INIT_ORDER[i] == m;
    }
  }

  /** The condition is exact: a failed start leaves the modules it had started up, so that they
      match the uninitialized state if and only if it was the first module that failed. */
  lemma FailedStartLeavesModules(s: State, t: nat, s': State)
    requires Inv(s) && !s.everFailed && t < |s.pcs| && s.pcs[t].Starting? && s.pcs[t].k < |INIT_ORDER|
    requires s' == Next(Next(s, StartModule(t, false)), StartUndo(t))
    ensures s'.lib.Uninitialized? && s'.up == FirstOf(INIT_ORDER, s.pcs[t].k)
    ensures ModulesInStep(s') <==> s.pcs[t].k == 0
  {
    assert s'.up == FirstOf(INIT_ORDER, s.pcs[t].k);
    assert s.pcs[t].k > 0 ==> INIT_ORDER[0] in s'.up;
    assert forall u :: 0 <= u < |s.pcs| && u != t ==> !Inside(s.pcs[u]) && s'.pcs[u] == s.pcs[u];
  }

  /** And it does happen: a run whose second module fails ends uninitialized with the first one up. */
  lemma FailedStartIsReachable(s: State, t: nat) returns (run: seq<State>)
    requires Init(s) && t < |s.pcs|
    ensures IsRun(run) && run[0] == s
    ensures run[|run| - 1].lib.Uninitialized? && run[|run| - 1].up == {RefCounts}
  {
    run := [s];
    run := Then(run, CallInit(t));
    run := Then(run, FastPath(t));
    run := Then(run, CompareAndSet(t));
    run := Then(run, StartModule(t, true));
    run := Then(run, StartModule(t, false));
    run := Then(run, StartUndo(t));
  }

  lemma Then(run: seq<State>, step: Step) returns (longer: seq<State>)
    requires IsRun(run) && Enabled(run[|run| - 1], step)
    ensures IsRun(longer) && longer == run + [Next(run[|run| - 1], step)]
  {
    longer := run + [Next(run[|run| - 1], step)];
    forall i | 0 <= i < |longer| - 1
      ensures StepTo(longer[i], longer[i + 1])
    {
      assert i < |run| - 1 ==> StepTo(run[i], run[i + 1]);
    }
  }

  /** It returns an error only if a module failed in the caller's own start. */
  lemma ErrorMeansOwnStartFailed(run: seq<State>, t: nat, i: nat, j: nat)
    requires IsRun(run) && i < j < |run| && t < |run[i].pcs| && run[i].pcs[t].Entered?
    requires forall k :: i <= k < j ==> t < |run[k].pcs| && !run[k].pcs[t].Returned?
    requires t < |run[j].pcs| && run[j].pcs[t] == Returned(false)
    ensures exists k :: i < k < j && run[k].pcs[t].StartFailed?
  {
    assert StepTo(run[j - 1], run[j - 1 + 1]);
    var step :| Enabled(run[j - 1], step) && run[j] == Next(run[j - 1], step);
    assert run[j - 1].pcs[t].StartFailed?;
  }

  /** Whoever sees the library running returns OK at once; whoever loses the race to an initializer
      or to a stop tries again. A stop that does not find it running gives up. */
  lemma Latecomers(s: State, t: nat)
    ensures Enabled(s, FastPath(t)) ==>
              Next(s, FastPath(t)).pcs[t] == if s.lib.Running? then Returned(true) else Trying
    ensures Enabled(s, CompareAndSet(t)) ==>
              Next(s, CompareAndSet(t)).pcs[t] == if s.lib.Running? then Returned(true)
                                                  else if s.lib.Uninitialized? then Starting(0) else Trying
    ensures Enabled(s, StopCas(t)) ==>
              Next(s, StopCas(t)).pcs[t] == if s.lib.Running? then TearingDown(0) else Idle
  {
  }

  /** An undisturbed start brings every module up, and an undisturbed stop every module down. */
  lemma StartsAndStops(s: State, t: nat) returns (up: seq<State>, down: seq<State>)
    requires Init(s) && t < |s.pcs|
    ensures IsRun(up) && up[0] == s && IsRun(down) && up <= down
    ensures var u := up[|up| - 1];
            u.lib.Running? && t < |u.pcs| && u.pcs[t] == Returned(true) && forall m: Module :: m in u.up
    ensures var d := down[|down| - 1]; d.lib.Uninitialized? && d.up == {}
  {
    up := [s];
    up := Then(up, CallInit(t));
    up := Then(up, FastPath(t));
    up := Then(up, CompareAndSet(t));
    up := StartAll(up, t);
    up := Then(up, StartDone(t));
    down := Then(up, Return(t));
    down := Then(down, CallDestroy(t));
    down := Then(down, StopCas(t));
    down := StopAll(down, t);
    down := Then(down, StopDone(t));
  }

  lemma StartAll(run: seq<State>, t: nat) returns (longer: seq<State>)
    requires IsRun(run) && t < |run[|run| - 1].pcs| && run[|run| - 1].pcs[t] == Starting(0)
    ensures IsRun(longer) && run <= longer
    ensures var a, z := run[|run| - 1], longer[|longer| - 1];
            && z.pcs == a.pcs[t := Starting(5)] && z.lib == a.lib && forall m: Module :: m in z.up
  {
    longer := Then(run, StartModule(t, true));
    longer := Then(longer, StartModule(t, true));
    longer := Then(longer, StartModule(t, true));
    longer := Then(longer, StartModule(t, true));
    longer := Then(longer, StartModule(t, true));
    var z := longer[|longer| - 1];
    forall m: Module
      ensures m in z.up
    {
      assert m == INIT_ORDER[0] || m == INIT_ORDER[1] || m == INIT_ORDER[2] || m == INIT_ORDER[3] || m == INIT_ORDER[4];
    }
  }

  lemma StopAll(run: seq<State>, t: nat) returns (longer: seq<State>)
    requires IsRun(run) && t < |run[|run| - 1].pcs| && run[|run| - 1].pcs[t] == TearingDown(0)
    ensures IsRun(longer) && run <= longer
    ensures var a, z := run[|run| - 1], longer[|longer| - 1];
            z.pcs == a.pcs[t := TearingDown(5)] && z.lib == a.lib && z.up == {}
  {
    longer := Then(run, StopModule(t));
    longer := Then(longer, StopModule(t));
    longer := Then(longer, StopModule(t));
    longer := Then(longer, StopModule(t));
    longer := Then(longer, StopModule(t));
    var z := longer[|longer| - 1];
    forall m: Module
      ensures m !in z.up
    {
      assert m == TEARDOWN_ORDER[0] || m == TEARDOWN_ORDER[1] || m == TEARDOWN_ORDER[2] || m == TEARDOWN_ORDER[3]
          || m == TEARDOWN_ORDER[4];
    }
  }

  /** initialize_modules returns OK only if the library was RUNNING at some moment of the call. */
  lemma OkMeansWasRunning(run: seq<State>, t: nat, i: nat, j: nat)
    requires IsRun(run) && i < j < |run| && t < |run[i].pcs| && run[i].pcs[t].Entered?
    requires forall k :: i <= k < j ==> t < |run[k].pcs| && !run[k].pcs[t].Returned?
    requires t < |run[j].pcs| && run[j].pcs[t] == Returned(true)
    ensures exists k :: i <= k <= j && run[k].lib.Running?
  {
    assert StepTo(run[j - 1], run[j - 1 + 1]);
    var step :| Enabled(run[j - 1], step) && run[j] == Next(run[j - 1], step);
    assert run[j - 1].lib.Running? || run[j].lib.Running?;
  }
}
