/** Reference counts with deferred cleanup: any number of threads take and drop references
    while the cleanup thread and the teardown drain the queue, one small step at a time. */
module RefCount {
  import opened Status

  type Obj = nat

  /** Where a thread stands in rc_dec_impl after its decrement reached zero. */
  datatype Pc =
    | Idle
    | Zeroed(o: Obj)      // about to read cleanup_thread_running
    | SawRunning(o: Obj)  // read it as 1, about to read cleanup_mutex and cleanup_queue
    | Queueing(o: Obj)    // about to lock cleanup_mutex and insert
    | Immediate(o: Obj)   // about to clean up itself

  datatype Cleaner = Looping | Holding(o: Obj) | Exited

  datatype Teardown = NotStarted | Stopping | Draining | DrainHolding(o: Obj) | Drained | Destroyed | Done

  datatype State = State(
    counts: map<Obj, nat>,        // objects ever allocated
    pcs: seq<Pc>,
    running: bool,
    queue: Option<seq<Obj>>,      // NULL once destroyed
    mutexAlive: bool,
    cleaner: Cleaner,
    teardown: Teardown,
    cleaned: seq<Obj>,            // cleanup_func called and block freed, in order
    lost: multiset<Obj>,          // dropped without cleanup
    entered: seq<Obj>,            // everything ever inserted into the queue, in order
    left: seq<Obj>,               // everything ever removed from it, in order
    lateAtDrain: bool)            // a thread was between its flag check and its insert when the drain ended

  datatype Step =
    | Alloc(a: Obj)
    | Inc(a: Obj)
    | Dec(t: nat, a: Obj)
    | ReadFlag(t: nat)
    | ReadQueue(t: nat)
    | Enqueue(t: nat, allocOk: bool)
    | CleanSelf(t: nat)
    | CleanerTake | CleanerClean | CleanerExit
    | TearStop | TearJoin | TearTake | TearClean | TearEmpty | TearQueue | TearMutex

  predicate Late(pc: Pc) {
    pc.SawRunning? || pc.Queueing?
  }

  ghost predicate SomeLate(pcs: seq<Pc>) {
    exists t :: 0 <= t < |pcs| && Late(pcs[t])
  }

  /** The thread may act on o: its block has not been freed. */
  predicate Allocated(s: State, o: Obj) {
    o in s.counts && o !in s.cleaned
  }

  ghost predicate Enabled(s: State, step: Step) {
    match step
    case Alloc(a) => a !in s.counts
    case Inc(a) => Allocated(s, a)
    case Dec(t, a) => t < |s.pcs| && s.pcs[t].Idle? && Allocated(s, a)
    case ReadFlag(t) => t < |s.pcs| && s.pcs[t].Zeroed?
    case ReadQueue(t) => t < |s.pcs| && s.pcs[t].SawRunning?
    case Enqueue(t, _) => t < |s.pcs| && s.pcs[t].Queueing?
    case CleanSelf(t) => t < |s.pcs| && s.pcs[t].Immediate?
    case CleanerTake => s.cleaner.Looping? && s.queue.Some? && s.queue.value != []
    case CleanerClean => s.cleaner.Holding?
    case CleanerExit => s.cleaner.Looping? && !s.running
    case TearStop => s.teardown.NotStarted?
    case TearJoin => s.teardown.Stopping? && s.cleaner.Exited?
    case TearTake => s.teardown.Draining? && s.queue.Some? && s.queue.value != []
    case TearClean => s.teardown.DrainHolding?
    case TearEmpty => s.teardown.Draining? && s.queue == Some([])
    case TearQueue => s.teardown.Drained? && s.queue.Some?
    case TearMutex => s.teardown.Destroyed?
  }

  ghost function Next(s: State, step: Step): State
    requires Enabled(s, step)
  {
    match step
    case Alloc(a) => s.(counts := s.counts[a := 1])
    case Inc(a) => if s.counts[a] > 0 then s.(counts := s.counts[a := s.counts[a] + 1]) else s
    case Dec(t, a) =>
      if s.counts[a] == 0 then s
      else
        var c := s.counts[a] - 1;
        s.(counts := s.counts[a := c], pcs := if c == 0 then s.pcs[t := Zeroed(a)] else s.pcs)
    case ReadFlag(t) =>
      var o := s.pcs[t].o;
      s.(pcs := s.pcs[t := if s.running then SawRunning(o) else Immediate(o)])
    case ReadQueue(t) =>
      var o := s.pcs[t].o;
      s.(pcs := s.pcs[t := if s.mutexAlive && s.queue.Some? then Queueing(o) else Immediate(o)])
    case Enqueue(t, allocOk) =>
      var o := s.pcs[t].o;
      // critical_block skips its body when the mutex is gone
      if !s.mutexAlive then s.(pcs := s.pcs[t := Idle], lost := s.lost + multiset{o})
      else if s.queue.None? || !allocOk then s.(pcs := s.pcs[t := Immediate(o)])
      else s.(pcs := s.pcs[t := Idle], queue := Some(s.queue.value + [o]), entered := s.entered + [o])
    case CleanSelf(t) => s.(pcs := s.pcs[t := Idle], cleaned := s.cleaned + [s.pcs[t].o])
    case CleanerTake =>
      s.(cleaner := Holding(s.queue.value[0]), queue := Some(s.queue.value[1..]), left := s.left + [s.queue.value[0]])
    case CleanerClean => s.(cleaner := Looping, cleaned := s.cleaned + [s.cleaner.o])
    case CleanerExit => s.(cleaner := Exited)
    case TearStop => s.(teardown := Stopping, running := false)
    case TearJoin => s.(teardown := Draining)
    case TearTake =>
      s.(teardown := DrainHolding(s.queue.value[0]), queue := Some(s.queue.value[1..]),
         left := s.left + [s.queue.value[0]])
    case TearClean => s.(teardown := Draining, cleaned := s.cleaned + [s.teardown.o])
    case TearEmpty => s.(teardown := Drained, lateAtDrain := SomeLate(s.pcs))
    case TearQueue => s.(teardown := Destroyed, queue := None, lost := s.lost + multiset(s.queue.value))
    case TearMutex => s.(teardown := Done, mutexAlive := false)
  }

  ghost predicate Init(s: State) {
    && s.counts == map[] && (forall t :: 0 <= t < |s.pcs| ==> s.pcs[t] == Idle)
    && s.running && s.queue == Some([]) && s.mutexAlive && s.cleaner == Looping && s.teardown == NotStarted
    && s.cleaned == [] && s.lost == multiset{} && s.entered == [] && s.left == [] && !s.lateAtDrain
  }

  /** How many threads carry o between their decrement and their insert. */
  ghost function Carried(pcs: seq<Pc>, o: Obj): nat {
    if pcs == [] then 0
    else Carried(pcs[..|pcs| - 1], o) + Carries(pcs[|pcs| - 1], o)
  }

  ghost function Carries(pc: Pc, o: Obj): nat {
    if !pc.Idle? && pc.o == o then 1 else 0
  }

  lemma {:induction false} CarriedUpdate(pcs: seq<Pc>, t: nat, pc: Pc, o: Obj)
    requires t < |pcs|
    ensures Carried(pcs[t := pc], o) == Carried(pcs, o) - Carries(pcs[t], o) + Carries(pc, o)
  {
    var n := |pcs| - 1;
    if t == n {
      assert pcs[t := pc][..n] == pcs[..n];
    } else {
      CarriedUpdate(pcs[..n], t, pc, o);
      assert pcs[t := pc][..n] == pcs[..n][t := pc];
    }
  }

  lemma {:induction false} CarriedNone(pcs: seq<Pc>, o: Obj)
    requires forall t :: 0 <= t < |pcs| ==> pcs[t] == Idle
    ensures Carried(pcs, o) == 0
  {
    if pcs != [] {
      CarriedNone(pcs[..|pcs| - 1], o);
    }
  }

  ghost function Count(q: seq<Obj>, o: Obj): nat {
    multiset(q)[o]
  }

  lemma CountAppend(q: seq<Obj>, a: Obj, o: Obj)
    ensures Count(q + [a], o) == Count(q, o) + (if a == o then 1 else 0)
  {
  }

  lemma CountPop(q: seq<Obj>, o: Obj)
    requires q != []
    ensures Count(q, o) == Count(q[1..], o) + (if q[0] == o then 1 else 0)
  {
    assert q == [q[0]] + q[1..];
  }

  /** In how many places a dead object is: carried by threads, queued, held by the cleanup
      thread or the teardown, cleaned, or lost. */
  ghost function Places(s: State, o: Obj): nat {
    Carried(s.pcs, o)
    + (if s.queue.Some? then Count(s.queue.value, o) else 0)
    + (if s.cleaner.Holding? && s.cleaner.o == o then 1 else 0)
    + (if s.teardown.DrainHolding? && s.teardown.o == o then 1 else 0)
    + Count(s.cleaned, o) + s.lost[o]
  }

  predicate Dead(s: State, o: Obj) {
    o in s.counts && s.counts[o] == 0
  }

  ghost predicate PlaceRight(s: State, o: Obj) {
    Places(s, o) == if Dead(s, o) then 1 else 0
  }

  /** Conservation: an object whose count is zero is in exactly one place, any other in none. */
  ghost predicate Conserved(s: State) {
    forall o :: PlaceRight(s, o)
  }

  ghost predicate Phases(s: State) {
    && (s.running <==> s.teardown.NotStarted?)
    && (s.cleaner.Exited? ==> !s.running)
    && (s.teardown in {Draining, Drained, Destroyed, Done} || s.teardown.DrainHolding? ==> s.cleaner.Exited?)
    && (s.queue.None? <==> s.teardown in {Destroyed, Done})
    && (!s.mutexAlive <==> s.teardown == Done)
    && s.left <= s.entered && (s.queue.Some? ==> s.entered == s.left + s.queue.value)
    && (s.teardown !in {Destroyed, Done} ==> s.lost == multiset{})
    && (s.lateAtDrain ==> s.teardown in {Drained, Destroyed, Done})
  }

  /** If no thread was late when the drain saw an empty queue, nothing is lost afterwards. */
  ghost predicate NothingLost(s: State) {
    s.teardown in {Drained, Destroyed, Done} && !s.lateAtDrain ==>
      !SomeLate(s.pcs) && s.lost == multiset{} && (s.queue.Some? ==> s.queue.value == [])
  }

  ghost predicate Inv(s: State) {
    Conserved(s) && Phases(s) && NothingLost(s)
  }

  lemma InitInv(s: State)
    requires Init(s)
    ensures Inv(s)
  {
    forall o
      ensures Places(s, o) == 0
    {
      CarriedNone(s.pcs, o);
    }
  }

  /** A step of a thread keeps the number of places of every object in line with its count. */
  lemma ThreadStepConserves(s: State, step: Step, o: Obj)
    requires PlaceRight(s, o) && Enabled(s, step)
    requires step.Dec? || step.ReadFlag? || step.ReadQueue? || step.CleanSelf?
    ensures PlaceRight(Next(s, step), o)
  {
    var s' := Next(s, step);
    CarriedUpdate(s.pcs, step.t, s'.pcs[step.t], o);
    assert s.pcs[step.t := s.pcs[step.t]] == s.pcs;
    if step.CleanSelf? {
      CountAppend(s.cleaned, s.pcs[step.t].o, o);
    }
  }

  lemma EnqueueConserves(s: State, step: Step, o: Obj)
    requires PlaceRight(s, o) && Enabled(s, step) && step.Enqueue?
    ensures PlaceRight(Next(s, step), o)
  {
    CarriedUpdate(s.pcs, step.t, Next(s, step).pcs[step.t], o);
    if s.queue.Some? {
      CountAppend(s.queue.value, s.pcs[step.t].o, o);
    }
  }

  /** So does a step of the cleanup thread, of the teardown, or one that takes a reference. */
  lemma QueueStepConserves(s: State, step: Step, o: Obj)
    requires PlaceRight(s, o) && Enabled(s, step)
    requires !(step.Dec? || step.ReadFlag? || step.ReadQueue? || step.CleanSelf? || step.Enqueue?)
    ensures PlaceRight(Next(s, step), o)
  {
    match step {
      case CleanerTake => CountPop(s.queue.value, o);
      case CleanerClean => CountAppend(s.cleaned, s.cleaner.o, o);
      case TearTake => CountPop(s.queue.value, o);
      case TearClean => CountAppend(s.cleaned, s.teardown.o, o);
      case _ =>
    }
  }

  lemma PhasesStep(s: State, step: Step)
    requires Inv(s) && Enabled(s, step)
    ensures Phases(Next(s, step))
  {
  }

  lemma NothingLostStep(s: State, step: Step)
    requires Inv(s) && Enabled(s, step)
    ensures NothingLost(Next(s, step))
  {
    var s' := Next(s, step);
    if s'.teardown in {Drained, Destroyed, Done} && !s'.lateAtDrain {
      assert forall t :: 0 <= t < |s'.pcs| && Late(s'.pcs[t]) ==> Late(s.pcs[t]);
    }
  }

  lemma InvStep(s: State, step: Step)
    requires Inv(s) && Enabled(s, step)
    ensures Inv(Next(s, step))
  {
    forall o
      ensures PlaceRight(Next(s, step), o)
    {
      assert PlaceRight(s, o);
      if step.Dec? || step.ReadFlag? || step.ReadQueue? || step.CleanSelf? {
        ThreadStepConserves(s, step, o);
      } else if step.Enqueue? {
        EnqueueConserves(s, step, o);
      } else {
        QueueStepConserves(s, step, o);
      }
    }
    PhasesStep(s, step);
    NothingLostStep(s, step);
  }

  /** A schedule of steps and the state it leads to. */
  ghost predicate Schedule(s: State, steps: seq<Step>, s': State)
    decreases |steps|
  {
    if steps == [] then s' == s
    else Enabled(s, steps[0]) && Schedule(Next(s, steps[0]), steps[1..], s')
  }

  lemma {:induction false} InvRun(s: State, steps: seq<Step>, s': State)
    requires Inv(s) && Schedule(s, steps, s')
    ensures Inv(s')
    decreases |steps|
  {
    if steps != [] {
      InvStep(s, steps[0]);
      InvRun(Next(s, steps[0]), steps[1..], s');
    }
  }

  /** Zero is absorbing: over any schedule a dead object stays dead. */
  lemma {:induction false} ZeroAbsorbing(s: State, steps: seq<Step>, s': State, o: Obj)
    requires Schedule(s, steps, s') && Dead(s, o)
    ensures Dead(s', o)
    decreases |steps|
  {
    if steps != [] {
      ZeroAbsorbing(Next(s, steps[0]), steps[1..], s', o);
    }
  }

  /** References taken and dropped by a schedule: rc_alloc and rc_inc take one, rc_dec drops one. */
  function Takes(steps: seq<Step>, o: Obj): nat {
    if steps == [] then 0 else (if steps[0] == Alloc(o) || steps[0] == Inc(o) then 1 else 0) + Takes(steps[1..], o)
  }

  function Drops(steps: seq<Step>, o: Obj): nat {
    if steps == [] then 0 else (if steps[0].Dec? && steps[0].a == o then 1 else 0) + Drops(steps[1..], o)
  }

  function CountOf(s: State, o: Obj): nat {
    if o in s.counts then s.counts[o] else 0
  }

  lemma CountStep(s: State, step: Step, o: Obj)
    requires Enabled(s, step) && !Dead(s, o)
    ensures CountOf(Next(s, step), o)
         == CountOf(s, o) + (if step == Alloc(o) || step == Inc(o) then 1 else 0)
            - (if step.Dec? && step.a == o then 1 else 0)
    ensures Dead(Next(s, step), o) ==> step.Dec? && step.a == o
  {
  }

  /** As long as an object is alive its count is the references taken less those dropped. */
  lemma {:induction false} CountsReferences(s: State, steps: seq<Step>, s': State, o: Obj)
    requires Schedule(s, steps, s') && !Dead(s, o)
    ensures !Dead(s', o) ==> CountOf(s', o) == CountOf(s, o) + Takes(steps, o) - Drops(steps, o)
    decreases |steps|
  {
    if steps != [] {
      var m := Next(s, steps[0]);
      CountStep(s, steps[0], o);
      if Dead(m, o) {
        ZeroAbsorbing(m, steps[1..], s', o);
      } else {
        CountsReferences(m, steps[1..], s', o);
      }
    }
  }

  /** An object dies at the drop with which all references taken so far have been dropped. */
  lemma {:induction false} DiesWhenAllDropped(s: State, steps: seq<Step>, s': State, o: Obj) returns (n: nat)
    requires Schedule(s, steps, s') && !Dead(s, o) && Dead(s', o)
    ensures n <= |steps| && 0 < Drops(steps[..n], o) == CountOf(s, o) + Takes(steps[..n], o)
    decreases |steps|
  {
    CountStep(s, steps[0], o);
    var m := Next(s, steps[0]);
    if Dead(m, o) {
      n := 1;
      assert steps[..1][1..] == [];
    } else {
      var k := DiesWhenAllDropped(m, steps[1..], s', o);
      n := k + 1;
      assert steps[..n][1..] == steps[1..][..k];
    }
  }

  predicate AllDropped(steps: seq<Step>, o: Obj) {
    0 < Takes(steps, o) == Drops(steps, o)
  }

  /** Whatever the schedule: no object is cleaned twice or before every reference taken has been
      dropped, and objects leave the queue in the order in which they entered it. */
  lemma CleanupSafe(s: State, steps: seq<Step>, s': State, o: Obj)
    requires Init(s) && Schedule(s, steps, s')
    ensures Count(s'.cleaned, o) <= 1
    ensures o in s'.cleaned ==> Dead(s', o)
    ensures o in s'.cleaned ==> exists n :: 0 <= n <= |steps| && AllDropped(steps[..n], o)
    ensures s'.left <= s'.entered
  {
    InitInv(s);
    InvRun(s, steps, s');
    assert PlaceRight(s', o);
    assert o in s'.cleaned ==> Count(s'.cleaned, o) > 0;
    if o in s'.cleaned {
      var n := DiesWhenAllDropped(s, steps, s', o);
      assert AllDropped(steps[..n], o);
    }
  }

  /** Nothing is on its way any more: teardown is over and every decrement has finished. */
  ghost predicate Quiet(s: State) {
    s.teardown == Done && forall t :: 0 <= t < |s.pcs| ==> s.pcs[t] == Idle
  }

  /** After teardown every dead object has been cleaned exactly once, unless it was lost; and
      nothing is lost if no thread was late when the drain ended. */
  lemma CleanedAfterTeardown(s: State, steps: seq<Step>, s': State, o: Obj)
    requires Init(s) && Schedule(s, steps, s') && Quiet(s')
    ensures s'.queue == None
    ensures Dead(s', o) ==> Count(s'.cleaned, o) + s'.lost[o] == 1
    ensures !s'.lateAtDrain ==> (Dead(s', o) <==> Count(s'.cleaned, o) == 1)
  {
    InitInv(s);
    InvRun(s, steps, s');
    CarriedNone(s'.pcs, o);
    assert PlaceRight(s', o);
  }

  lemma Before(s: State, step: Step, steps: seq<Step>, s': State) returns (all: seq<Step>)
    requires Enabled(s, step) && Schedule(Next(s, step), steps, s')
    ensures all == [step] + steps && Schedule(s, all, s')
  {
    all := [step] + steps;
    assert all[1..] == steps;
  }

  /** Some schedule from here drops an object without cleaning it. */
  ghost predicate CanLose(s: State) {
    exists steps, s', o :: Loses(s, steps, s', o)
  }

  ghost predicate Loses(s: State, steps: seq<Step>, s': State, o: Obj) {
    Schedule(s, steps, s') && s'.lost[o] > 0 && o !in s'.cleaned
  }

  /** From any drained state with a thread past the flag check, teardown can overtake it and its
      object is never cleaned. */
  lemma LateThreadLoses(s: State, t: nat) returns (steps: seq<Step>, s': State)
    requires Inv(s) && s.teardown == Drained && t < |s.pcs| && Late(s.pcs[t])
    ensures Loses(s, steps, s', s.pcs[t].o)
  {
    if s.pcs[t].SawRunning? {
      InvStep(s, ReadQueue(t));
      steps, s' := OvertakenLoses(Next(s, ReadQueue(t)), t);
      steps := Before(s, ReadQueue(t), steps, s');
    } else {
      steps, s' := OvertakenLoses(s, t);
    }
  }

  lemma OvertakenLoses(s: State, t: nat) returns (steps: seq<Step>, s': State)
    requires Inv(s) && s.teardown == Drained && t < |s.pcs| && s.pcs[t].Queueing?
    ensures Loses(s, steps, s', s.pcs[t].o)
  {
    steps, s' := LateEnqueue(s, t);
    InvRun(s, steps, s');
    assert PlaceRight(s', s.pcs[t].o);
  }

  lemma LateEnqueue(s: State, t: nat) returns (steps: seq<Step>, s': State)
    requires Inv(s) && s.teardown == Drained && t < |s.pcs| && s.pcs[t].Queueing?
    ensures Schedule(s, steps, s') && s.pcs[t].o in s'.lost
  {
    var s1 := Next(s, TearQueue);
    var s2 := Next(s1, TearMutex);
    s' := Next(s2, Enqueue(t, true));
    steps := Before(s2, Enqueue(t, true), [], s');
    steps := Before(s1, TearMutex, steps, s');
    steps := Before(s, TearQueue, steps, s');
  }

  lemma {:induction false} DrainStaysClean(s: State, steps: seq<Step>, s': State)
    requires Schedule(s, steps, s') && s.teardown in {Drained, Destroyed, Done} && !s.lateAtDrain
    ensures s'.teardown in {Drained, Destroyed, Done} && !s'.lateAtDrain
    decreases |steps|
  {
    if steps != [] {
      DrainStaysClean(Next(s, steps[0]), steps[1..], s');
    }
  }

  /** The condition is exact: when the drain ends an object can be lost if and only if some thread
      is past the flag check. */
  lemma LossNeedsLateThread(s: State)
    requires Inv(s) && Enabled(s, TearEmpty)
    ensures CanLose(Next(s, TearEmpty)) <==> SomeLate(s.pcs)
  {
    var d := Next(s, TearEmpty);
    InvStep(s, TearEmpty);
    if SomeLate(s.pcs) {
      var t :| 0 <= t < |s.pcs| && Late(s.pcs[t]);
      var steps, s' := LateThreadLoses(d, t);
    } else {
      forall steps, s', o | Schedule(d, steps, s')
        ensures s'.lost[o] == 0
      {
        InvRun(d, steps, s');
        DrainStaysClean(d, steps, s');
      }
    }
  }

  /** And it does happen: with any thread and any object, from the very start. */
  lemma LossIsReachable(s: State, t: nat, o: Obj) returns (steps: seq<Step>, s': State)
    requires Init(s) && t < |s.pcs|
    ensures Loses(s, steps, s', o)
  {
    var s1 := Next(s, Alloc(o));
    var s2 := Next(s1, Dec(t, o));
    var s3 := Next(s2, ReadFlag(t));
    InitInv(s);
    InvStep(s, Alloc(o));
    InvStep(s1, Dec(t, o));
    InvStep(s2, ReadFlag(t));
    steps, s' := TornDownLoses(s3, t);
    steps := Before(s2, ReadFlag(t), steps, s');
    steps := Before(s1, Dec(t, o), steps, s');
    steps := Before(s, Alloc(o), steps, s');
  }

  lemma TornDownLoses(s: State, t: nat) returns (steps: seq<Step>, s': State)
    requires Inv(s) && s.teardown == NotStarted && s.cleaner == Looping && s.queue == Some([])
    requires t < |s.pcs| && Late(s.pcs[t])
    ensures Loses(s, steps, s', s.pcs[t].o)
  {
    var s1 := Next(s, TearStop);
    var s2 := Next(s1, CleanerExit);
    var s3 := Next(s2, TearJoin);
    var s4 := Next(s3, TearEmpty);
    InvStep(s, TearStop);
    InvStep(s1, CleanerExit);
    InvStep(s2, TearJoin);
    InvStep(s3, TearEmpty);
    steps, s' := LateThreadLoses(s4, t);
    steps := Before(s3, TearEmpty, steps, s');
    steps := Before(s2, TearJoin, steps, s');
    steps := Before(s1, CleanerExit, steps, s');
    steps := Before(s, TearStop, steps, s');
  }

  // Undisturbed runs: each way of getting rid of an object gets rid of it.

  /** The thread that drops the last reference is about to queue the object. */
  lemma Dying(s: State, t: nat, o: Obj, m: State, more: seq<Step>, s': State) returns (steps: seq<Step>)
    requires Init(s) && t < |s.pcs| && m == s.(counts := map[o := 0], pcs := s.pcs[t := Queueing(o)])
    requires Schedule(m, more, s')
    ensures steps == [Alloc(o), Dec(t, o), ReadFlag(t), ReadQueue(t)] + more && Schedule(s, steps, s')
  {
    var zeroed := s.(counts := map[o := 0], pcs := s.pcs[t := Zeroed(o)]);
    steps := LooksRound(zeroed, t, m, more, s');
    var s1 := Next(s, Alloc(o));
    assert Next(s1, Dec(t, o)).counts == zeroed.counts;
    steps := Before(s1, Dec(t, o), steps, s');
    steps := Before(s, Alloc(o), steps, s');
  }

  lemma LooksRound(s: State, t: nat, m: State, more: seq<Step>, s': State) returns (steps: seq<Step>)
    requires t < |s.pcs| && s.pcs[t].Zeroed? && s.running && s.mutexAlive && s.queue.Some?
    requires m == s.(pcs := s.pcs[t := Queueing(s.pcs[t].o)]) && Schedule(m, more, s')
    ensures steps == [ReadFlag(t), ReadQueue(t)] + more && Schedule(s, steps, s')
  {
    var s1 := Next(s, ReadFlag(t));
    assert Next(s1, ReadQueue(t)).pcs == m.pcs;
    steps := Before(s1, ReadQueue(t), more, s');
    steps := Before(s, ReadFlag(t), steps, s');
  }

  /** The cleanup thread takes a queued object out and cleans it. */
  lemma CleanerCleans(s: State, t: nat, o: Obj) returns (steps: seq<Step>, s': State)
    requires Init(s) && t < |s.pcs|
    ensures steps == [Alloc(o), Dec(t, o), ReadFlag(t), ReadQueue(t), Enqueue(t, true), CleanerTake, CleanerClean]
    ensures Schedule(s, steps, s') && s'.cleaned == [o] && s'.queue == Some([]) && s'.pcs == s.pcs
  {
    var m := s.(counts := map[o := 0], pcs := s.pcs[t := Queueing(o)]);
    var s1 := Next(m, Enqueue(t, true));
    assert s1.queue.value == [o] && s1.pcs == s.pcs;
    var s2 := Next(s1, CleanerTake);
    s' := Next(s2, CleanerClean);
    assert s'.queue.value == [];
    steps := Before(s2, CleanerClean, [], s');
    steps := Before(s1, CleanerTake, steps, s');
    steps := Before(m, Enqueue(t, true), steps, s');
    steps := Dying(s, t, o, m, steps, s');
  }

  /** Without memory for the queue the thread cleans up itself. */
  lemma ThreadCleans(s: State, t: nat, o: Obj) returns (steps: seq<Step>, s': State)
    requires Init(s) && t < |s.pcs|
    ensures steps == [Alloc(o), Dec(t, o), ReadFlag(t), ReadQueue(t), Enqueue(t, false), CleanSelf(t)]
    ensures Schedule(s, steps, s') && s'.cleaned == [o] && s'.queue == Some([]) && s'.pcs == s.pcs
  {
    var m := s.(counts := map[o := 0], pcs := s.pcs[t := Queueing(o)]);
    var s1 := Next(m, Enqueue(t, false));
    s' := Next(s1, CleanSelf(t));
    assert s'.pcs == s.pcs;
    steps := Before(s1, CleanSelf(t), [], s');
    steps := Before(m, Enqueue(t, false), steps, s');
    steps := Dying(s, t, o, m, steps, s');
  }

  lemma DrainRun(s: State, o: Obj) returns (steps: seq<Step>, s': State)
    requires s.teardown == Draining && s.queue == Some([o]) && forall t :: 0 <= t < |s.pcs| ==> s.pcs[t] == Idle
    ensures steps == [TearTake, TearClean, TearEmpty, TearQueue, TearMutex] && Schedule(s, steps, s')
    ensures s'.cleaned == s.cleaned + [o] && Quiet(s') && s'.queue.None? && !s'.lateAtDrain && s'.lost == s.lost
  {
    var s1 := Next(s, TearTake);
    assert s1.queue.value == [];
    var s2 := Next(s1, TearClean);
    var s3 := Next(s2, TearEmpty);
    var s4 := Next(s3, TearQueue);
    s' := Next(s4, TearMutex);
    steps := Before(s4, TearMutex, [], s');
    steps := Before(s3, TearQueue, steps, s');
    steps := Before(s2, TearEmpty, steps, s');
    steps := Before(s1, TearClean, steps, s');
    steps := Before(s, TearTake, steps, s');
  }

  /** Teardown cleans what the cleanup thread has left in the queue. */
  lemma TeardownCleans(s: State, t: nat, o: Obj) returns (steps: seq<Step>, s': State)
    requires Init(s) && t < |s.pcs|
    ensures steps == [Alloc(o), Dec(t, o), ReadFlag(t), ReadQueue(t), Enqueue(t, true), TearStop, CleanerExit, TearJoin,
                      TearTake, TearClean, TearEmpty, TearQueue, TearMutex]
    ensures Schedule(s, steps, s') && s'.cleaned == [o] && Quiet(s') && s'.queue.None? && s'.lost == multiset{}
  {
    var m := s.(counts := map[o := 0], pcs := s.pcs[t := Queueing(o)]);
    var queued := s.(counts := map[o := 0], queue := Some([o]), entered := [o]);
    steps, s' := TeardownRun(queued, o);
    assert Next(m, Enqueue(t, true)).queue.value == [o] && Next(m, Enqueue(t, true)).pcs == s.pcs;
    assert Next(m, Enqueue(t, true)).entered == [o];
    steps := Before(m, Enqueue(t, true), steps, s');
    steps := Dying(s, t, o, m, steps, s');
  }

  lemma TeardownRun(s: State, o: Obj) returns (steps: seq<Step>, s': State)
    requires s.teardown == NotStarted && s.cleaner == Looping && s.queue == Some([o]) && s.cleaned == []
    requires s.lost == multiset{} && forall t :: 0 <= t < |s.pcs| ==> s.pcs[t] == Idle
    ensures steps == [TearStop, CleanerExit, TearJoin, TearTake, TearClean, TearEmpty, TearQueue, TearMutex]
    ensures Schedule(s, steps, s') && s'.cleaned == [o] && Quiet(s') && s'.queue.None? && s'.lost == multiset{}
  {
    var s1 := Next(s, TearStop);
    var s2 := Next(s1, CleanerExit);
    steps, s' := DrainRun(s.(running := false, cleaner := Exited, teardown := Draining), o);
    steps := Before(s2, TearJoin, steps, s');
    steps := Before(s1, CleanerExit, steps, s');
    steps := Before(s, TearStop, steps, s');
  }
}
