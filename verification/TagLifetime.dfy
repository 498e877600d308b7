/** Lifetimes of tags: creators, lookups, the tickler and destroyers race for the tag table
    and for the reference counts of the tags in it, one small step at a time. */
module TagLifetime {
  import opened Status
  import opened TagRegistry

  type Tag = nat

  /** What one activity (an API call, a pass of the tickler, a nested destroy) is doing. */
  datatype Act =
    | Idle
    | Creating(o: Tag)                          // owns the reference of rc_alloc
    | Mapped(o: Tag, id: int)                   // add_tag_lookup succeeded: the table owns it now
    | Named(o: Tag, id: int)                    // tag->tag_id is stored
    | GivingUp(o: Tag)                          // about to rc_dec on a failure path
    | Got(o: Tag, id: int, byName: bool)        // holds tag_lookup_mutex and a bare pointer
    | Using(o: Tag)                             // rc_inc succeeded
    | Destroying(o: Tag)                        // took the tag out of the table

  datatype State = State(
    table: map<int, Tag>,
    counts: map<Tag, nat>,
    names: map<Tag, int>,       // tag->tag_id, zero until stored
    mutex: Option<nat>,         // which activity holds tag_lookup_mutex across steps
    acts: seq<Act>,
    removed: seq<Tag>,          // tags taken out of the table, in order
    failedIncs: nat,            // rc_inc that found a zero count
    badDecs: nat)               // rc_dec that found a zero count

  datatype Step =
    | Alloc(t: nat, a: Tag)
    | AddOk(t: nat, id: int) | AddFail(t: nat) | Name(t: nat) | CreateDone(t: nat) | CreateFail(t: nat)
    | LookupGet(t: nat, id: int, byName: bool) | LookupInc(t: nat)
    | DestroyTake(t: nat, id: int)
    | DropRef(t: nat)

  /** The activity owns one reference. */
  predicate Owns(a: Act) {
    a.Creating? || a.GivingUp? || a.Using? || a.Destroying?
  }

  predicate Enabled(s: State, step: Step) {
    && step.t < |s.acts|
    && var a := s.acts[step.t];
    match step
    case Alloc(_, o) => a.Idle? && o !in s.counts
    case AddOk(_, id) => a.Creating? && s.mutex.None? && IsTagId(id) && id !in s.table
    case AddFail(_) => a.Creating? && s.mutex.None?
    case Name(_) => a.Mapped?
    case CreateDone(_) => a.Named?
    case CreateFail(_) => a.Named? && s.mutex.None?
    case LookupGet(_, id, _) => a.Idle? && s.mutex.None?
    case LookupInc(_) => a.Got?
    case DestroyTake(_, id) => a.Idle? && s.mutex.None? && IsTagId(id) && id != TAG_ID_MASK
    case DropRef(_) => a.GivingUp? || a.Using? || a.Destroying?
  }

  function SetAct(s: State, t: nat, a: Act): State
    requires t < |s.acts|
  {
    s.(acts := s.acts[t := a])
  }

  /** hashtable_remove by one activity. */
  function TakeOut(s: State, t: nat, id: int, a: Act): State
    requires t < |s.acts| && id in s.table
  {
    SetAct(s, t, a).(table := s.table - {id}, removed := s.removed + [s.table[id]])
  }

  function CountOf(s: State, o: Tag): nat {
    if o in s.counts then s.counts[o] else 0
  }

  function Next(s: State, step: Step): State
    requires Enabled(s, step)
  {
    var t, a := step.t, s.acts[step.t];
    match step
    case Alloc(_, o) => SetAct(s, t, Creating(o)).(counts := s.counts[o := 1], names := s.names[o := 0])
    case AddOk(_, id) => SetAct(s, t, Mapped(a.o, id)).(table := s.table[id := a.o])
    case AddFail(_) => SetAct(s, t, GivingUp(a.o))
    case Name(_) => SetAct(s, t, Named(a.o, a.id)).(names := s.names[a.o := a.id])
    case CreateDone(_) => SetAct(s, t, Idle)
    case CreateFail(_) =>
      // the result of hashtable_remove is not looked at
      if a.id in s.table then TakeOut(s, t, a.id, GivingUp(a.o)) else SetAct(s, t, GivingUp(a.o))
    case LookupGet(_, id, byName) =>
      if id in s.table then SetAct(s, t, Got(s.table[id], id, byName)).(mutex := Some(t)) else s
    case LookupInc(_) =>
      if a.byName && a.o in s.names && s.names[a.o] != a.id then SetAct(s, t, Idle).(mutex := None)
      else if CountOf(s, a.o) > 0 then
        SetAct(s, t, Using(a.o)).(mutex := None, counts := s.counts[a.o := CountOf(s, a.o) + 1])
      else SetAct(s, t, Idle).(mutex := None, failedIncs := s.failedIncs + 1)
    case DestroyTake(_, id) => if id in s.table then TakeOut(s, t, id, Destroying(s.table[id])) else s
    case DropRef(_) =>
      if CountOf(s, a.o) > 0 then SetAct(s, t, Idle).(counts := s.counts[a.o := CountOf(s, a.o) - 1])
      else SetAct(s, t, Idle).(badDecs := s.badDecs + 1)
  }

  /** A creation that fails after publishing its tag still finds it in the table. */
  predicate Clean(s: State, step: Step)
    requires Enabled(s, step)
  {
    step.CreateFail? ==> var a := s.acts[step.t]; a.id in s.table && s.table[a.id] == a.o
  }

  function Owners(acts: seq<Act>, o: Tag): nat {
    if acts == [] then 0 else Owners(acts[..|acts| - 1], o) + Own(acts[|acts| - 1], o)
  }

  function Own(a: Act, o: Tag): nat {
    if Owns(a) && a.o == o then 1 else 0
  }

  lemma {:induction false} OwnersUpdate(acts: seq<Act>, t: nat, a: Act, o: Tag)
    requires t < |acts|
    ensures Owners(acts[t := a], o) == Owners(acts, o) - Own(acts[t], o) + Own(a, o)
  {
    var n := |acts| - 1;
    if t == n {
      assert acts[t := a][..n] == acts[..n];
    } else {
      OwnersUpdate(acts[..n], t, a, o);
      assert acts[t := a][..n] == acts[..n][t := a];
    }
  }

  lemma {:induction false} OwnersPositive(acts: seq<Act>, t: nat)
    requires t < |acts| && Owns(acts[t])
    ensures Owners(acts, acts[t].o) > 0
  {
    if t < |acts| - 1 {
      OwnersPositive(acts[..|acts| - 1], t);
    }
  }

  lemma {:induction false} OwnersNone(acts: seq<Act>, o: Tag)
    requires forall t :: 0 <= t < |acts| ==> !(Owns(acts[t]) && acts[t].o == o)
    ensures Owners(acts, o) == 0
  {
    if acts != [] {
      OwnersNone(acts[..|acts| - 1], o);
    }
  }

  predicate InTable(table: map<int, Tag>, o: Tag) {
    exists id :: id in table && table[id] == o
  }

  /** The count of a tag is its table membership plus the activities that own a reference. */
  predicate Accounted(s: State, o: Tag) {
    CountOf(s, o) == Owners(s.acts, o) + (if InTable(s.table, o) then 1 else 0)
  }

  ghost predicate Injective(table: map<int, Tag>) {
    forall i, j :: i in table && j in table && table[i] == table[j] ==> i == j
  }

  ghost predicate TableInv(s: State) {
    && Injective(s.table)
    && (forall id :: id in s.table ==> s.table[id] in s.counts && s.table[id] !in s.removed)
    && (forall o :: o in s.removed ==> o in s.counts && multiset(s.removed)[o] == 1)
  }

  /** A tag being created is in nobody else's hands. */
  ghost predicate CreatorInv(s: State) {
    && (forall t :: 0 <= t < |s.acts| && s.acts[t].Creating? ==>
        s.acts[t].o !in s.removed && !InTable(s.table, s.acts[t].o))
    && (forall t, u :: 0 <= t < u < |s.acts| && s.acts[t].Creating? && s.acts[u].Creating? ==>
        s.acts[t].o != s.acts[u].o)
  }

  /** A lookup that holds the mutex has a pointer the table still has. */
  ghost predicate LookupInv(s: State) {
    && (forall t :: 0 <= t < |s.acts| && !s.acts[t].Idle? ==> s.acts[t].o in s.counts)
    && (forall t :: 0 <= t < |s.acts| && s.acts[t].Got? ==>
          s.mutex == Some(t) && s.acts[t].id in s.table && s.table[s.acts[t].id] == s.acts[t].o)
  }

  ghost predicate Inv(s: State) {
    && TableInv(s) && CreatorInv(s) && LookupInv(s) && (forall o :: Accounted(s, o))
    && s.failedIncs == 0 && s.badDecs == 0
  }

  ghost predicate Init(s: State) {
    && s.table == map[] && s.counts == map[] && s.names == map[] && s.mutex == None && s.removed == []
    && s.failedIncs == 0 && s.badDecs == 0 && forall t :: 0 <= t < |s.acts| ==> s.acts[t].Idle?
  }

  lemma InitInv(s: State)
    requires Init(s)
    ensures Inv(s)
  {
    forall o
      ensures Accounted(s, o)
    {
      OwnersNone(s.acts, o);
    }
  }

  lemma AddedInTable(table: map<int, Tag>, id: int, a: Tag, o: Tag)
    requires id !in table
    ensures InTable(table[id := a], o) <==> InTable(table, o) || o == a
  {
    if InTable(table, o) {
      var i :| i in table && table[i] == o;
      assert table[id := a][i] == o;
    }
    assert table[id := a][id] == a;
  }

  lemma RemovedInTable(table: map<int, Tag>, id: int, o: Tag)
    requires Injective(table) && id in table
    ensures InTable(table - {id}, o) <==> InTable(table, o) && o != table[id]
  {
    if InTable(table, o) && o != table[id] {
      var i :| i in table && table[i] == o;
      assert i in table - {id} && (table - {id})[i] == o;
    }
  }

  /** Steps that move a tag into or out of the table keep the accounts. */
  lemma TableStepAccounts(s: State, step: Step, o: Tag)
    requires Inv(s) && Enabled(s, step) && Clean(s, step)
    requires step.AddOk? || step.CreateFail? || step.DestroyTake?
    ensures Accounted(Next(s, step), o)
  {
    var s', a := Next(s, step), s.acts[step.t];
    assert Accounted(s, o);
    OwnersUpdate(s.acts, step.t, s'.acts[step.t], o);
    assert s.acts[step.t := s.acts[step.t]] == s.acts;
    if step.AddOk? {
      AddedInTable(s.table, step.id, a.o, o);
    } else if step.CreateFail? {
      RemovedInTable(s.table, a.id, o);
    } else if step.id in s.table {
      RemovedInTable(s.table, step.id, o);
    }
  }

  /** So do the steps that only change counts and owners. */
  lemma CountStepAccounts(s: State, step: Step, o: Tag)
    requires Accounted(s, o) && Enabled(s, step)
    requires !(step.AddOk? || step.CreateFail? || step.DestroyTake?)
    requires step.DropRef? ==> CountOf(s, s.acts[step.t].o) > 0
    ensures Accounted(Next(s, step), o)
  {
    var s' := Next(s, step);
    assert s'.table == s.table;
    OwnersUpdate(s.acts, step.t, s'.acts[step.t], o);
    assert s.acts[step.t := s.acts[step.t]] == s.acts;
  }

  /** An activity that owns a reference finds a positive count. */
  lemma DropFindsReference(s: State, t: nat)
    requires Inv(s) && t < |s.acts| && Owns(s.acts[t])
    ensures CountOf(s, s.acts[t].o) > 0
  {
    OwnersPositive(s.acts, t);
    assert Accounted(s, s.acts[t].o);
  }

  /** A tag that can be reached through the table has a positive count. */
  lemma ReachableIsAlive(s: State, id: int)
    requires Inv(s) && id in s.table
    ensures CountOf(s, s.table[id]) > 0
  {
    assert Accounted(s, s.table[id]);
  }

  lemma CountersStep(s: State, step: Step)
    requires Inv(s) && Enabled(s, step)
    ensures Next(s, step).failedIncs == 0 && Next(s, step).badDecs == 0
  {
    if step.LookupInc? {
      ReachableIsAlive(s, s.acts[step.t].id);
    } else if step.DropRef? {
      DropFindsReference(s, step.t);
    }
  }

  lemma RemovalKeepsTable(s: State, s': State, id: int)
    requires TableInv(s) && id in s.table && s'.counts == s.counts
    requires s'.table == s.table - {id} && s'.removed == s.removed + [s.table[id]]
    ensures TableInv(s')
  {
  }

  lemma TableInvStep(s: State, step: Step)
    requires TableInv(s) && CreatorInv(s) && LookupInv(s) && Enabled(s, step)
    ensures TableInv(Next(s, step))
  {
    var s', a := Next(s, step), s.acts[step.t];
    if step.CreateFail? && a.id in s.table {
      RemovalKeepsTable(s, s', a.id);
    } else if step.DestroyTake? && step.id in s.table {
      RemovalKeepsTable(s, s', step.id);
    } else if step.AddOk? {
      assert !InTable(s.table, a.o) && a.o !in s.removed;
    } else {
      assert s'.table == s.table && s'.removed == s.removed;
    }
  }

  lemma LookupInvStep(s: State, step: Step)
    requires TableInv(s) && LookupInv(s) && Enabled(s, step)
    ensures LookupInv(Next(s, step))
  {
    var s' := Next(s, step);
    assert s.counts.Keys <= s'.counts.Keys;
    forall t | 0 <= t < |s'.acts| && t != step.t
      ensures s'.acts[t] == s.acts[t]
      ensures s'.acts[t].Got? ==> s'.mutex == s.mutex && s'.table == s.table
    {
    }
  }

  lemma CreatorInvStep(s: State, step: Step)
    requires TableInv(s) && CreatorInv(s) && LookupInv(s) && Enabled(s, step)
    ensures CreatorInv(Next(s, step))
  {
    var s', a := Next(s, step), s.acts[step.t];
    forall t | 0 <= t < |s'.acts| && s'.acts[t].Creating?
      ensures s'.acts[t].o !in s'.removed && !InTable(s'.table, s'.acts[t].o)
    {
      var o := s'.acts[t].o;
      if step.Alloc? && t == step.t {
        assert o !in s.counts;
      } else {
        assert s.acts[t].Creating? && s.acts[t].o == o;
        if step.AddOk? {
          AddedInTable(s.table, step.id, a.o, o);
        }
      }
    }
  }

  lemma InvStep(s: State, step: Step)
    requires Inv(s) && Enabled(s, step) && Clean(s, step)
    ensures Inv(Next(s, step))
  {
    forall o
      ensures Accounted(Next(s, step), o)
    {
      if step.AddOk? || step.CreateFail? || step.DestroyTake? {
        TableStepAccounts(s, step, o);
      } else {
        assert Accounted(s, o);
        if step.DropRef? {
          DropFindsReference(s, step.t);
        }
        CountStepAccounts(s, step, o);
      }
    }
    CountersStep(s, step);
    TableInvStep(s, step);
    LookupInvStep(s, step);
    CreatorInvStep(s, step);
  }

  ghost predicate CleanRun(s: State, steps: seq<Step>, s': State)
    decreases |steps|
  {
    if steps == [] then s' == s
    else Enabled(s, steps[0]) && Clean(s, steps[0]) && CleanRun(Next(s, steps[0]), steps[1..], s')
  }

  lemma {:induction false} InvRun(s: State, steps: seq<Step>, s': State)
    requires Inv(s) && CleanRun(s, steps, s')
    ensures Inv(s')
    decreases |steps|
  {
    if steps != [] {
      InvStep(s, steps[0]);
      InvRun(Next(s, steps[0]), steps[1..], s');
    }
  }

  /** Over every run: a tag's count is its table membership plus the references in use, a
      reachable tag is alive, every rc_inc of a lookup succeeds, no rc_dec finds zero, and
      each tag is taken out of the table at most once. */
  lemma LifetimesSafe(s: State, steps: seq<Step>, s': State, o: Tag)
    requires Init(s) && CleanRun(s, steps, s')
    ensures CountOf(s', o) == Owners(s'.acts, o) + (if InTable(s'.table, o) then 1 else 0)
    ensures forall id :: id in s'.table ==> CountOf(s', s'.table[id]) >= 1
    ensures s'.failedIncs == 0 && s'.badDecs == 0
    ensures multiset(s'.removed)[o] <= 1
    ensures o in s'.removed ==> !InTable(s'.table, o)
  {
    InitInv(s);
    InvRun(s, steps, s');
    assert Accounted(s', o);
    forall id | id in s'.table
      ensures CountOf(s', s'.table[id]) >= 1
    {
      ReachableIsAlive(s', id);
    }
  }

  /** A lookup of a mapped id ends with one more reference to its tag, for lookup_tag provided that
      the creation has stored the id in the tag, for the tickler in any case. */
  lemma LookupFinds(s: State, u: nat, id: int, byName: bool)
    requires Inv(s) && u < |s.acts| && s.acts[u].Idle? && s.mutex.None? && id in s.table && s.table[id] in s.names
    ensures var o, s1 := s.table[id], Next(s, LookupGet(u, id, byName));
            && Enabled(s1, LookupInc(u)) && var s2 := Next(s1, LookupInc(u));
            && (s2.acts[u] == if byName && s.names[o] != id then Idle else Using(o))
            && CountOf(s2, o) == CountOf(s, o) + (if s2.acts[u].Using? then 1 else 0)
            && s2.mutex.None? && s2.table == s.table
  {
    ReachableIsAlive(s, id);
  }

  /** From the moment its creation stores the id, a mapped tag is found under it. */
  lemma NamedTagIsFound(s: State, t: nat, u: nat)
    requires Inv(s) && t < |s.acts| && u < |s.acts| && s.acts[t].Mapped? && s.acts[u].Idle? && s.mutex.None?
    requires s.acts[t].id in s.table && s.table[s.acts[t].id] == s.acts[t].o
    ensures var o, id := s.acts[t].o, s.acts[t].id;
            var s1 := Next(s, Name(t)); var s2 := Next(s1, LookupGet(u, id, true));
            Enabled(s2, LookupInc(u)) && Next(s2, LookupInc(u)).acts[u] == Using(o)
  {
    InvStep(s, Name(t));
    var s1 := Next(s, Name(t));
    LookupFinds(s1, u, s.acts[t].id, true);
  }

  /** A destroy of a mapped id takes its tag out and drops one reference. */
  lemma DestroyDrops(s: State, t: nat, id: int)
    requires Inv(s) && Enabled(s, DestroyTake(t, id)) && id in s.table
    ensures var o, s1 := s.table[id], Next(s, DestroyTake(t, id));
            && s1.acts[t] == Destroying(o) && s1.table == s.table - {id} && s1.removed == s.removed + [o]
            && Enabled(s1, DropRef(t))
            && CountOf(Next(s1, DropRef(t)), o) == CountOf(s, o) - 1 && Next(s1, DropRef(t)).acts[t].Idle?
  {
    ReachableIsAlive(s, id);
  }

  /** The one way to break the accounts: a creation that fails after its tag was destroyed by
      someone else drops a reference it does not own. */
  lemma UncleanBreaksAccounts(s: State, step: Step)
    requires Inv(s) && Enabled(s, step) && step.CreateFail?
    ensures Inv(Next(s, step)) <==> Clean(s, step)
  {
    if Clean(s, step) {
      InvStep(s, step);
    } else {
      var s', a := Next(s, step), s.acts[step.t];
      assert Accounted(s, a.o);
      OwnersUpdate(s.acts, step.t, GivingUp(a.o), a.o);
      if a.id in s.table {
        RemovedInTable(s.table, a.id, a.o);
      }
      assert !Accounted(s', a.o);
    }
  }

  /** A run of any enabled steps. */
  ghost predicate Schedule(s: State, steps: seq<Step>, s': State)
    decreases |steps|
  {
    if steps == [] then s' == s else Enabled(s, steps[0]) && Schedule(Next(s, steps[0]), steps[1..], s')
  }

  /** Whatever the run, clean or not: a count that has reached zero stays there, since rc_inc
      refuses it, and every refused increment or decrement is on record. */
  lemma {:induction false} ZeroStays(s: State, steps: seq<Step>, s': State, o: Tag)
    requires Schedule(s, steps, s') && o in s.counts && s.counts[o] == 0
    ensures o in s'.counts && s'.counts[o] == 0
    ensures s.failedIncs <= s'.failedIncs && s.badDecs <= s'.badDecs
    ensures steps != [] && MovesCount(s, steps[0], o) ==> s.failedIncs + s.badDecs < s'.failedIncs + s'.badDecs
    decreases |steps|
  {
    if steps != [] {
      ZeroStays(Next(s, steps[0]), steps[1..], s', o);
    }
  }

  /** The step is an increment or a decrement of this tag's count. */
  predicate MovesCount(s: State, step: Step, o: Tag) {
    && step.t < |s.acts|
    && var a := s.acts[step.t];
    || (step.DropRef? && Enabled(s, step) && a.o == o)
    || (step.LookupInc? && Enabled(s, step) && a.o == o && !(a.byName && o in s.names && s.names[o] != a.id))
  }

  /** And it does happen: a creation that fails after another thread destroyed its tag ends in an
      rc_dec of a zero count. */
  lemma UncleanIsReachable(s: State, o: Tag, id: int) returns (steps: seq<Step>, s': State)
    requires Init(s) && |s.acts| >= 2 && IsTagId(id) && id != TAG_ID_MASK
    ensures Schedule(s, steps, s') && s'.badDecs == 1 && CountOf(s', o) == 0
  {
    var s1 := Next(s, Alloc(0, o));
    var s2 := Next(s1, AddOk(0, id));
    var s3 := Next(s2, Name(0));
    var s4 := Next(s3, DestroyTake(1, id));
    var s5 := Next(s4, CreateFail(0));
    var s6 := Next(s5, DropRef(1));
    s' := Next(s6, DropRef(0));
    steps := Before(s6, DropRef(0), [], s');
    steps := Before(s5, DropRef(1), steps, s');
    steps := Before(s4, CreateFail(0), steps, s');
    steps := Before(s3, DestroyTake(1, id), steps, s');
    steps := Before(s2, Name(0), steps, s');
    steps := Before(s1, AddOk(0, id), steps, s');
    steps := Before(s, Alloc(0, o), steps, s');
  }

  lemma Before(s: State, step: Step, steps: seq<Step>, s': State) returns (all: seq<Step>)
    requires Enabled(s, step) && Schedule(Next(s, step), steps, s')
    ensures all == [step] + steps && Schedule(s, all, s')
  {
    all := [step] + steps;
    assert all[1..] == steps;
  }

  /** A mapped tag is looked up, destroyed while in use, and dead when the user lets go. */
  lemma UsedAndDestroyed(s: State, o: Tag, id: int) returns (steps: seq<Step>, s': State)
    requires |s.acts| >= 2 && s.acts[0].Idle? && s.acts[1].Idle? && s.mutex.None? && IsTagId(id) && id != TAG_ID_MASK
    requires s.table == map[id := o] && s.counts == map[o := 1] && s.names == map[o := id]
    ensures steps == [LookupGet(1, id, true), LookupInc(1), DestroyTake(0, id), DropRef(0), DropRef(1)]
    ensures Schedule(s, steps, s') && s'.table == map[] && s'.counts == map[o := 0] && s'.removed == s.removed + [o]
    ensures s'.acts == s.acts && s'.mutex.None?
  {
    var used := s.(acts := s.acts[1 := Using(o)], counts := map[o := 2]);
    steps, s' := DestroyedInUse(used, o, id);
    assert s'.acts == s.acts;
    var s1 := Next(s, LookupGet(1, id, true));
    assert Next(s1, LookupInc(1)).acts == used.acts && Next(s1, LookupInc(1)).counts == used.counts;
    steps := Before(s1, LookupInc(1), steps, s');
    steps := Before(s, LookupGet(1, id, true), steps, s');
  }

  lemma DestroyedInUse(s: State, o: Tag, id: int) returns (steps: seq<Step>, s': State)
    requires |s.acts| >= 2 && s.acts[0].Idle? && s.acts[1] == Using(o) && s.mutex.None?
    requires IsTagId(id) && id != TAG_ID_MASK && s.table == map[id := o] && s.counts == map[o := 2]
    ensures steps == [DestroyTake(0, id), DropRef(0), DropRef(1)] && Schedule(s, steps, s')
    ensures s' == s.(table := map[], counts := map[o := 0], removed := s.removed + [o], acts := s.acts[1 := Idle])
  {
    var s1 := Next(s, DestroyTake(0, id));
    var s2 := Next(s1, DropRef(0));
    s' := Next(s2, DropRef(1));
    assert s'.table == map[] && s'.counts == map[o := 0] && s'.acts == s.acts[1 := Idle];
    steps := Before(s2, DropRef(1), [], s');
    steps := Before(s1, DropRef(0), steps, s');
    steps := Before(s, DestroyTake(0, id), steps, s');
  }

  /** An undisturbed life, from the creation on. */
  lemma LifeOfATag(s: State, o: Tag, id: int) returns (steps: seq<Step>, s': State)
    requires Init(s) && |s.acts| >= 2 && IsTagId(id) && id != TAG_ID_MASK
    ensures steps == [Alloc(0, o), AddOk(0, id), Name(0), CreateDone(0), LookupGet(1, id, true), LookupInc(1),
                      DestroyTake(0, id), DropRef(0), DropRef(1)]
    ensures Schedule(s, steps, s') && s'.table == map[] && s'.counts == map[o := 0] && s'.removed == [o]
    ensures s'.acts == s.acts && s'.mutex.None?
  {
    var s1 := Next(s, Alloc(0, o));
    var s2 := Next(s1, AddOk(0, id));
    var s3 := Next(s2, Name(0));
    var s4 := Next(s3, CreateDone(0));
    assert s4.table == map[id := o] && s4.counts == map[o := 1] && s4.names == map[o := id] && s4.acts == s.acts;
    steps, s' := UsedAndDestroyed(s4, o, id);
    steps := Before(s3, CreateDone(0), steps, s');
    steps := Before(s2, Name(0), steps, s');
    steps := Before(s1, AddOk(0, id), steps, s');
    steps := Before(s, Alloc(0, o), steps, s');
  }

  /** A creation that gets no id drops the only reference. */
  lemma FailedCreation(s: State, t: nat, o: Tag) returns (steps: seq<Step>, s': State)
    requires Init(s) && t < |s.acts|
    ensures steps == [Alloc(t, o), AddFail(t), DropRef(t)] && Schedule(s, steps, s')
    ensures s'.table == map[] && s'.counts == map[o := 0] && s'.acts == s.acts
  {
    var s1 := Next(s, Alloc(t, o));
    var s2 := Next(s1, AddFail(t));
    s' := Next(s2, DropRef(t));
    assert s'.counts == map[o := 0] && s'.acts == s.acts;
    steps := Before(s2, DropRef(t), [], s');
    steps := Before(s1, AddFail(t), steps, s');
    steps := Before(s, Alloc(t, o), steps, s');
  }
}
