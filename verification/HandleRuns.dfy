/** Whole runs of the handle table, against a plain map of the live handles. */
module HandleRuns {
  import opened HandleTable

  /** A destroy that waits for other users while they go on is a MarkOp followed by a DestroyOp. */
  datatype Op =
    | AllocOp(headerOk: bool, memOk: bool)
    | AcquireOp(h: nat)
    | ReleaseOp(h: nat)
    | MarkOp(h: nat)
    | DestroyOp(h: nat)

  /** What the operation itself answers; handle_release answers nothing. */
  datatype Answer = Issued(h: nat) | NotIssued | Answered(rc: Result) | Silent

  /** What there is to know about a live handle. */
  datatype Info = Info(refcount: int, marked: bool)

  /** The handle an operation is about. */
  function HandleOf(op: Op, a: Answer): nat {
    if !op.AllocOp? then op.h else if a.Issued? then a.h else HANDLE_INVALID
  }

  /** The operation issued its handle or found it in the table. */
  predicate Recognised(a: Answer) {
    a.Issued? || (a.Answered? && a.rc != NotFound)
  }

  /** The answer the plain map gives. An allocation issues a handle that is not live; it can fail for
      want of a header, or of memory for more slots, which a table in use does not need below 256. */
  predicate AnswerOk(m: map<nat, Info>, op: Op, a: Answer) {
    match op
    case AllocOp(headerOk, memOk) =>
      && (a.Issued? || a == NotIssued) && (a.Issued? ==> headerOk && a.h !in m)
      && (headerOk && memOk && |m| < 0x8000_0000_0000 ==> a.Issued?)
      && (headerOk && 0 < |m| < INITIAL_SLOTS ==> a.Issued?)
    case AcquireOp(h) => a == Answered(if h !in m then NotFound else if m[h].marked then ObjectFreed else Ok)
    case ReleaseOp(_) => a == Silent
    case MarkOp(h) => a == Answered(if h in m then Ok else NotFound)
    case DestroyOp(h) => a == Answered(if h in m then Ok else NotFound)
  }

  /** The plain map after an operation. */
  function Apply(m: map<nat, Info>, op: Op, a: Answer): map<nat, Info> {
    match op
    case AllocOp(_, _) => if a.Issued? then m[a.h := Info(1, false)] else m
    case AcquireOp(h) => if h in m && !m[h].marked then m[h := Info(m[h].refcount + 1, false)] else m
    case ReleaseOp(h) => if h in m then m[h := Info(m[h].refcount - 1, m[h].marked)] else m
    case MarkOp(h) => if h in m then m[h := Info(m[h].refcount, true)] else m
    case DestroyOp(h) => m - {h}
  }

  function Replay(ops: seq<Op>, answers: seq<Answer>): map<nat, Info>
    requires |answers| <= |ops|
  {
    if answers == [] then map[]
    else
      var n := |answers| - 1;
      Apply(Replay(ops, answers[..n]), ops[n], answers[n])
  }

  /** A handle of the slot was destroyed. */
  predicate Destroys(op: Op, a: Answer, slot: nat) {
    op.DestroyOp? && a == Answered(Ok) && HandleIndex(op.h) == slot
  }

  /** How often the handles of a slot have been destroyed. */
  function Destroyed(ops: seq<Op>, answers: seq<Answer>, slot: nat): nat
    requires |answers| <= |ops|
  {
    if answers == [] then 0
    else
      var n := |answers| - 1;
      Destroyed(ops, answers[..n], slot) + (if Destroys(ops[n], answers[n], slot) then 1 else 0)
  }

  /** A recognised handle carries the generation of its slot. */
  predicate GenerationOk(op: Op, a: Answer, destroyed: nat) {
    Recognised(a) ==> HandleOf(op, a) == Pack(HandleIndex(HandleOf(op, a)), destroyed % GENERATIONS)
  }

  predicate RunOk(ops: seq<Op>, answers: seq<Answer>)
    requires |answers| <= |ops|
  {
    answers != [] ==>
      var n := |answers| - 1;
      var op, a, before := ops[n], answers[n], answers[..n];
      && RunOk(ops, before)
      && AnswerOk(Replay(ops, before), op, a)
      && GenerationOk(op, a, Destroyed(ops, before, HandleIndex(HandleOf(op, a))))
  }

  lemma RunStep(ops: seq<Op>, answers: seq<Answer>, a: Answer)
    requires |answers| < |ops|
    ensures var op := ops[|answers|];
            && Replay(ops, answers + [a]) == Apply(Replay(ops, answers), op, a)
            && (RunOk(ops, answers + [a]) <==>
                  && RunOk(ops, answers) && AnswerOk(Replay(ops, answers), op, a)
                  && GenerationOk(op, a, Destroyed(ops, answers, HandleIndex(HandleOf(op, a)))))
  {
    assert (answers + [a])[..|answers|] == answers;
  }

  lemma DestroyedStep(ops: seq<Op>, answers: seq<Answer>, a: Answer, slot: nat)
    requires |answers| < |ops|
    ensures Destroyed(ops, answers + [a], slot)
         == Destroyed(ops, answers, slot) + (if Destroys(ops[|answers|], a, slot) then 1 else 0)
  {
    assert (answers + [a])[..|answers|] == answers;
  }

  lemma {:induction false} DestroyedGrows(ops: seq<Op>, answers: seq<Answer>, slot: nat, i: nat, j: nat)
    requires i < j <= |answers| <= |ops|
    ensures Destroyed(ops, answers[..i], slot) <= Destroyed(ops, answers[..j], slot)
    ensures Destroys(ops[i], answers[i], slot) ==>
              Destroyed(ops, answers[..i], slot) < Destroyed(ops, answers[..j], slot)
  {
    var n := j - 1;
    assert answers[..j][..n] == answers[..n];
    if i < n {
      DestroyedGrows(ops, answers, slot, i, n);
    }
  }

  lemma {:induction false} GenerationAt(ops: seq<Op>, answers: seq<Answer>, n: nat)
    requires n < |answers| <= |ops| && RunOk(ops, answers)
    ensures var slot := HandleIndex(HandleOf(ops[n], answers[n]));
            GenerationOk(ops[n], answers[n], Destroyed(ops, answers[..n], slot))
    decreases |answers|
  {
    var last := |answers| - 1;
    LastAnswer(ops, answers);
    if n < last {
      GenerationAt(ops, answers[..last], n);
      SamePrefix(answers, n, last);
    }
  }

  lemma LastAnswer(ops: seq<Op>, answers: seq<Answer>)
    requires 0 < |answers| <= |ops| && RunOk(ops, answers)
    ensures var n := |answers| - 1; var slot := HandleIndex(HandleOf(ops[n], answers[n]));
            RunOk(ops, answers[..n]) && GenerationOk(ops[n], answers[n], Destroyed(ops, answers[..n], slot))
  {
  }

  lemma SamePrefix(answers: seq<Answer>, n: nat, last: nat)
    requires n <= last <= |answers|
    ensures answers[..last][..n] == answers[..n]
  {
  }

  /** A destroyed handle is neither recognised by any operation nor issued again before its slot
      has been destroyed 65536 times, counting its own destruction. */
  lemma DeadForAWholeTurn(ops: seq<Op>, answers: seq<Answer>, i: nat, j: nat)
    requires |answers| == |ops| && RunOk(ops, answers) && i < j < |ops|
    requires ops[i].DestroyOp? && answers[i] == Answered(Ok)
    requires Recognised(answers[j]) && HandleOf(ops[j], answers[j]) == ops[i].h
    ensures var slot := HandleIndex(ops[i].h);
            Destroyed(ops, answers[..j], slot) - Destroyed(ops, answers[..i], slot) >= GENERATIONS
  {
    var slot := HandleIndex(ops[i].h);
    GenerationAt(ops, answers, i);
    GenerationAt(ops, answers, j);
    DestroyedGrows(ops, answers, slot, i, j);
    SameHandleAfter(slot, Destroyed(ops, answers[..i], slot), Destroyed(ops, answers[..j], slot));
  }

  ghost function DestroysOf(t: Handles, slot: nat): nat
    reads t
  {
    if slot < |t.destroys| then t.destroys[slot] else 0
  }

  /** The map and the table agree about one handle. */
  ghost predicate Agree(t: Handles, m: map<nat, Info>, h: nat)
    reads t, t.slots
  {
    && (h in m <==> t.Names(h))
    && (h in m ==> m[h] == Info(t.slots[HandleIndex(h)].refcount, t.slots[HandleIndex(h)].destroying))
  }

  /** The table stands for the map. */
  ghost predicate Stands(t: Handles, m: map<nat, Info>)
    reads t, t.slots
  {
    t.Valid() && t.active == |m| && forall h: nat :: Agree(t, m, h)
  }

  lemma Smaller(m: map<nat, Info>, h: nat)
    requires h in m
    ensures |m - {h}| == |m| - 1
  {
    assert (m - {h}).Keys == m.Keys - {h};
  }

  lemma NamedHandle(t: Handles, h: nat)
    requires t.Valid()
    ensures t.Names(h) ==> h == Pack(HandleIndex(h), DestroysOf(t, HandleIndex(h)) % GENERATIONS)
  {
  }

  method DoAlloc(t: Handles, headerOk: bool, memOk: bool, ghost m: map<nat, Info>) returns (a: Answer)
    requires Stands(t, m)
    modifies t, t.slots
    ensures Stands(t, Apply(m, AllocOp(headerOk, memOk), a)) && (t.slots == old(t.slots) || fresh(t.slots))
    ensures AnswerOk(m, AllocOp(headerOk, memOk), a)
    ensures a.Issued? ==> a.h == Pack(HandleIndex(a.h), old(DestroysOf(t, HandleIndex(a.h))) % GENERATIONS)
    ensures forall slot: nat :: DestroysOf(t, slot) == old(DestroysOf(t, slot))
  {
    ghost var index;
    var h, ok;
    InUseFull(t.slots[..]);
    h, ok, index := t.Alloc(headerOk, memOk);
    if !ok {
      assert forall x: nat :: old(Agree(t, m, x)) ==> Agree(t, m, x);
      return NotIssued;
    }
    PackParts(index, t.destroys[index] % GENERATIONS);
    assert HandleIndex(h) == index && old(Agree(t, m, h)) && h !in m;
    ghost var m' := m[h := Info(1, false)];
    forall x: nat
      ensures Agree(t, m', x)
    {
      assert old(Agree(t, m, x));
      assert HandleIndex(x) != index ==> (t.Names(x) <==> x in m);
    }
    a := Issued(h);
  }

  method DoAcquire(t: Handles, h: nat, ghost m: map<nat, Info>) returns (a: Answer)
    requires Stands(t, m)
    modifies t.slots
    ensures Stands(t, Apply(m, AcquireOp(h), a)) && AnswerOk(m, AcquireOp(h), a)
  {
    assert Agree(t, m, h);
    var rc := t.Acquire(h);
    a := Answered(rc);
    forall x: nat
      ensures Agree(t, Apply(m, AcquireOp(h), a), x)
    {
      assert old(Agree(t, m, x));
    }
  }

  method DoRelease(t: Handles, h: nat, ghost m: map<nat, Info>) returns (a: Answer)
    requires Stands(t, m)
    modifies t.slots
    ensures Stands(t, Apply(m, ReleaseOp(h), a)) && AnswerOk(m, ReleaseOp(h), a)
  {
    assert Agree(t, m, h);
    t.Release(h);
    a := Silent;
    forall x: nat
      ensures Agree(t, Apply(m, ReleaseOp(h), a), x)
    {
      assert old(Agree(t, m, x));
    }
  }

  method DoMark(t: Handles, h: nat, ghost m: map<nat, Info>) returns (a: Answer)
    requires Stands(t, m)
    modifies t.slots
    ensures Stands(t, Apply(m, MarkOp(h), a)) && AnswerOk(m, MarkOp(h), a)
  {
    assert Agree(t, m, h);
    var rc := t.BeginDestroy(h);
    a := Answered(rc);
    forall x: nat
      ensures Agree(t, Apply(m, MarkOp(h), a), x)
    {
      assert old(Agree(t, m, x));
    }
  }

  /** handle_destroy without interruption. */
  method DoDestroy(t: Handles, h: nat, ghost m: map<nat, Info>) returns (a: Answer)
    requires Stands(t, m)
    modifies t, t.slots
    ensures Stands(t, Apply(m, DestroyOp(h), a)) && AnswerOk(m, DestroyOp(h), a) && t.slots == old(t.slots)
    ensures forall slot: nat ::
              DestroysOf(t, slot) == old(DestroysOf(t, slot)) + (if Destroys(DestroyOp(h), a, slot) then 1 else 0)
  {
    assert Agree(t, m, h);
    a := DoMark(t, h, m);
    if a == Answered(Ok) {
      Finish(t, h, Apply(m, MarkOp(h), a));
    }
    MarkedWithout(m, h, a);
  }

  /** It makes no difference to a destroyed handle that it was marked. */
  lemma MarkedWithout(m: map<nat, Info>, h: nat, a: Answer)
    ensures h in m ==> Apply(m, MarkOp(h), a) - {h} == m - {h}
    ensures h !in m ==> Apply(m, MarkOp(h), a) == m - {h}
  {
  }

  method Finish(t: Handles, h: nat, ghost m: map<nat, Info>)
    requires Stands(t, m) && h in m
    modifies t, t.slots
    ensures Stands(t, m - {h}) && t.slots == old(t.slots)
    ensures forall slot: nat ::
              DestroysOf(t, slot) == old(DestroysOf(t, slot)) + (if HandleIndex(h) == slot then 1 else 0)
  {
    assert Agree(t, m, h);
    Smaller(m, h);
    t.FinishDestroy(h);
    forall x: nat
      ensures Agree(t, m - {h}, x)
    {
      assert old(Agree(t, m, x)) && old(Agree(t, m, h));
    }
  }

  /** One operation: its own answer is the one the map gives. */
  method Do(t: Handles, op: Op, ghost m: map<nat, Info>) returns (a: Answer)
    requires Stands(t, m)
    modifies t, t.slots
    ensures Stands(t, Apply(m, op, a)) && AnswerOk(m, op, a) && (t.slots == old(t.slots) || fresh(t.slots))
    ensures GenerationOk(op, a, old(DestroysOf(t, HandleIndex(HandleOf(op, a)))))
    ensures forall slot: nat ::
              DestroysOf(t, slot) == old(DestroysOf(t, slot)) + (if Destroys(op, a, slot) then 1 else 0)
  {
    if op.AllocOp? {
      a := DoAlloc(t, op.headerOk, op.memOk, m);
      return;
    }
    assert Agree(t, m, op.h);
    NamedHandle(t, op.h);
    match op {
      case AcquireOp(h) => a := DoAcquire(t, h, m);
      case ReleaseOp(h) => a := DoRelease(t, h, m);
      case MarkOp(h) => a := DoMark(t, h, m);
      case DestroyOp(h) => a := DoDestroy(t, h, m);
    }
  }

  /** The table after the recorded operations. */
  ghost predicate Follows(t: Handles, ops: seq<Op>, answers: seq<Answer>)
    requires |answers| <= |ops|
    reads t, t.slots
  {
    && Stands(t, Replay(ops, answers)) && RunOk(ops, answers)
    && forall slot: nat :: DestroysOf(t, slot) == Destroyed(ops, answers, slot)
  }

  method DoNext(t: Handles, ops: seq<Op>, ghost answers: seq<Answer>, op: Op) returns (a: Answer)
    requires |answers| < |ops| && op == ops[|answers|] && Follows(t, ops, answers)
    modifies t, t.slots
    ensures Follows(t, ops, answers + [a]) && (t.slots == old(t.slots) || fresh(t.slots))
  {
    a := Do(t, op, Replay(ops, answers));
    RunStep(ops, answers, a);
    forall slot: nat
      ensures DestroysOf(t, slot) == Destroyed(ops, answers + [a], slot)
    {
      DestroyedStep(ops, answers, a, slot);
    }
  }

  /** Over every run from an empty table every operation answers as the plain map does, and the
      active count is the number of live handles. */
  method Run(ops: seq<Op>) returns (answers: seq<Answer>, active: int)
    ensures |answers| == |ops| && RunOk(ops, answers) && active == |Replay(ops, answers)|
  {
    var t := new Handles();
    answers := [];
    for n := 0 to |ops|
      invariant |answers| == n && fresh(t) && fresh(t.slots) && Follows(t, ops, answers)
    {
      var a := DoNext(t, ops, answers, ops[n]);
      answers := answers + [a];
    }
    active := t.active;
  }
}
