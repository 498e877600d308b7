/** Tag events: raising coalesces them into flags, dispatching turns the flags into callback
    calls in a fixed order. */
module Events {
  import opened Status

  datatype Event = Created | ReadStarted | WriteStarted | Aborted | ReadCompleted | WriteCompleted | Destroyed

  /** One callback call. */
  datatype Call = Call(event: Event, status: int)

  /** A pending event: raised and not yet delivered, with the status it was last raised with. */
  datatype Flag = Flag(pending: bool, status: int)

  const CLEAR := Flag(false, STATUS_OK)

  function CallIf(f: Flag, e: Event): (calls: seq<Call>) {
    if f.pending then [Call(e, f.status)] else []
  }

  function Count(log: seq<Call>, e: Event): nat {
    if log == [] then 0 else Count(log[..|log| - 1], e) + (if log[|log| - 1].event == e then 1 else 0)
  }

  lemma {:induction false} CountConcat(a: seq<Call>, b: seq<Call>, e: Event)
    ensures Count(a + b, e) == Count(a, e) + Count(b, e)
  {
    if b == [] {
      assert a + b == a;
    } else {
      CountConcat(a, b[..|b| - 1], e);
      assert (a + b)[..|a + b| - 1] == a + b[..|b| - 1];
    }
  }

  lemma {:induction false} CountedOccurs(log: seq<Call>, e: Event)
    requires Count(log, e) > 0
    ensures exists i :: 0 <= i < |log| && log[i].event == e
  {
    if log[|log| - 1].event != e {
      CountedOccurs(log[..|log| - 1], e);
    }
  }

  /** Events that must not come before CREATED. */
  predicate Late(e: Event) {
    e in {Aborted, ReadCompleted, WriteCompleted}
  }

  /** Every late call of the log has a CREATED call before it. */
  ghost predicate CreatedFirst(log: seq<Call>) {
    forall i :: 0 <= i < |log| && Late(log[i].event) ==> exists j :: 0 <= j < i && log[j].event == Created
  }

  /** A log stays in order when no late call comes before the first CREATED of log and batch. */
  lemma CreatedFirstConcat(log: seq<Call>, batch: seq<Call>)
    requires CreatedFirst(log)
    requires (exists i :: 0 <= i < |batch| && Late(batch[i].event)) ==>
               Count(log, Created) > 0 || batch[0].event == Created
    ensures CreatedFirst(log + batch)
  {
    var all := log + batch;
    forall i | 0 <= i < |all| && Late(all[i].event)
      ensures exists j :: 0 <= j < i && all[j].event == Created
    {
      if i < |log| {
        var j :| 0 <= j < i && log[j].event == Created;
        assert all[j].event == Created;
      } else {
        assert Late(batch[i - |log|].event);
        if Count(log, Created) > 0 {
          CountedOccurs(log, Created);
          var j :| 0 <= j < |log| && log[j].event == Created;
          assert all[j].event == Created;
        } else {
          assert all[|log|].event == Created;
        }
      }
    }
  }

  /** The order in which a dispatch looks at the flags. */
  const DISPATCH_ORDER := [Created, ReadStarted, WriteStarted, Aborted, ReadCompleted, WriteCompleted, Destroyed]

  function Slot(e: Event): (k: nat)
    ensures k < 7 && DISPATCH_ORDER[k] == e
  {
    match e
    case Created => 0
    case ReadStarted => 1
    case WriteStarted => 2
    case Aborted => 3
    case ReadCompleted => 4
    case WriteCompleted => 5
    case Destroyed => 6
  }

  /** Whether raising e sets event f pending: itself, unless it is a completion nobody enabled or
      a second CREATED, and CREATED ahead of a first abort or completion. */
  predicate Pends(f: Event, e: Event, hadCreated: bool, readEnabled: bool, writeEnabled: bool) {
    match f
    case Created => !hadCreated && (e == Created || Late(e))
    case ReadCompleted => e == f && readEnabled
    case WriteCompleted => e == f && writeEnabled
    case _ => e == f
  }

  function WithCreated(flags: seq<Flag>, hadCreated: bool, status: int): seq<Flag>
    requires |flags| == 7
  {
    if hadCreated then flags else flags[Slot(Created) := Flag(true, status)]
  }

  /** The calls made for the first k flags. */
  function Calls(flags: seq<Flag>, k: nat): seq<Call>
    requires k <= |flags| == 7
  {
    if k == 0 then [] else Calls(flags, k - 1) + CallIf(flags[k - 1], DISPATCH_ORDER[k - 1])
  }

  /** Each pending event is delivered once. */
  lemma {:induction false} CallsCount(flags: seq<Flag>, k: nat, e: Event)
    requires k <= |flags| == 7
    ensures Count(Calls(flags, k), e) == if Slot(e) < k && flags[Slot(e)].pending then 1 else 0
  {
    if k > 0 {
      CallsCount(flags, k - 1, e);
      CallCounts(flags[k - 1], k - 1, e);
      CountConcat(Calls(flags, k - 1), CallIf(flags[k - 1], DISPATCH_ORDER[k - 1]), e);
    }
  }

  lemma CallCounts(f: Flag, k: nat, e: Event)
    requires k < 7
    ensures Count(CallIf(f, DISPATCH_ORDER[k]), e) == if f.pending && Slot(e) == k then 1 else 0
  {
  }

  /** A pending CREATED comes first. */
  lemma {:induction false} CreatedLeads(flags: seq<Flag>, k: nat)
    requires 0 < k <= |flags| == 7 && flags[0].pending
    ensures Calls(flags, k) != [] && Calls(flags, k)[0].event == Created
  {
    if k > 1 {
      CreatedLeads(flags, k - 1);
    } else {
      assert Calls(flags, 0) == [];
    }
  }

  /** The calls in the order the source makes them, each with the status stored for its event. */
  lemma CallsUnrolled(f: seq<Flag>)
    requires |f| == 7
    ensures Calls(f, 7) == CallIf(f[0], Created) + CallIf(f[1], ReadStarted) + CallIf(f[2], WriteStarted)
                         + CallIf(f[3], Aborted) + CallIf(f[4], ReadCompleted) + CallIf(f[5], WriteCompleted)
                         + CallIf(f[6], Destroyed)
  {
    assert Calls(f, 1) == [] + CallIf(f[0], Created) == CallIf(f[0], Created);
    assert Calls(f, 2) == Calls(f, 1) + CallIf(f[1], ReadStarted);
    assert Calls(f, 3) == Calls(f, 2) + CallIf(f[2], WriteStarted);
    assert Calls(f, 4) == Calls(f, 3) + CallIf(f[3], Aborted);
    assert Calls(f, 5) == Calls(f, 4) + CallIf(f[4], ReadCompleted);
    assert Calls(f, 6) == Calls(f, 5) + CallIf(f[5], WriteCompleted);
  }

  /** Which event may come before which in a batch: a start before its completion, an abort before
      completions, CREATED first, DESTROYED last, none twice. */
  predicate MayPrecede(a: Event, b: Event) {
    && a != b && b != Created && a != Destroyed
    && !(a == ReadCompleted && b == ReadStarted) && !(a == WriteCompleted && b == WriteStarted)
    && !(a in {ReadCompleted, WriteCompleted} && b == Aborted)
  }

  /** Every call of a batch is for a pending event, with the status of its flag, in order. */
  lemma {:induction false} CallsCarryStatus(flags: seq<Flag>, k: nat, i: nat)
    requires k <= |flags| == 7 && i < |Calls(flags, k)|
    ensures var c := Calls(flags, k)[i];
            Slot(c.event) < k && flags[Slot(c.event)] == Flag(true, c.status)
  {
    if i < |Calls(flags, k - 1)| {
      CallsCarryStatus(flags, k - 1, i);
    } else {
      SlotOf(k - 1);
    }
  }

  lemma SlotOf(k: nat)
    requires k < 7
    ensures Slot(DISPATCH_ORDER[k]) == k
  {
  }

  lemma {:induction false} CallsOrdered(flags: seq<Flag>, k: nat, i: nat, j: nat)
    requires k <= |flags| == 7 && i < j < |Calls(flags, k)|
    ensures Slot(Calls(flags, k)[i].event) < Slot(Calls(flags, k)[j].event)
  {
    CallsCarryStatus(flags, k - 1, i);
    if j < |Calls(flags, k - 1)| {
      CallsOrdered(flags, k - 1, i, j);
    } else {
      SlotOf(k - 1);
    }
  }

  lemma SlotsPrecede(a: Event, b: Event)
    requires Slot(a) < Slot(b)
    ensures MayPrecede(a, b)
  {
  }

  lemma {:induction false} LateIsPending(flags: seq<Flag>, k: nat, i: nat)
    requires k <= |flags| == 7 && i < |Calls(flags, k)| && Late(Calls(flags, k)[i].event)
    ensures flags[3].pending || flags[4].pending || flags[5].pending
  {
    if i < |Calls(flags, k - 1)| {
      LateIsPending(flags, k - 1, i);
    }
  }

  /** The event fields of a tag; the pending flags are kept in dispatch order. */
  class TagEvents {
    var hasCallback: bool
    var flags: seq<Flag>
    var readEnabled: bool
    var writeEnabled: bool
    var hadCreated: bool

    ghost var log: seq<Call>          // every callback call so far
    ghost var readStarts: nat         // READ_STARTED raised with a callback registered
    ghost var writeStarts: nat

    predicate IsPending(e: Event)
      reads this`flags
    {
      |flags| == 7 && flags[Slot(e)].pending
    }

    /** Calls made, waiting to be made, and still allowed. */
    ghost function Due(e: Event, enabled: bool): nat
      reads this`flags, this`log
    {
      Count(log, e) + (if IsPending(e) then 1 else 0) + (if enabled then 1 else 0)
    }

    /** What the history of raises and calls guarantees. */
    ghost predicate Valid()
      reads this
    {
      && |flags| == 7
      && Due(Created, false) == (if hadCreated then 1 else 0)
      && (IsPending(Aborted) || IsPending(ReadCompleted) || IsPending(WriteCompleted) ==> hadCreated)
      && CreatedFirst(log)
      && Due(ReadCompleted, readEnabled) <= readStarts
      && Due(WriteCompleted, writeEnabled) <= writeStarts
    }

    constructor (hasCallback: bool)
      ensures Valid() && log == [] && readStarts == writeStarts == 0 && this.hasCallback == hasCallback
      ensures !readEnabled && !writeEnabled && !hadCreated && forall k :: 0 <= k < 7 ==> !flags[k].pending
    {
      this.hasCallback := hasCallback;
      flags := seq(7, _ => CLEAR);
      readEnabled, writeEnabled, hadCreated := false, false, false;
      log, readStarts, writeStarts := [], 0, 0;
    }

    method Pend(e: Event, status: int)
      requires |flags| == 7
      modifies this`flags
      ensures flags == old(flags)[Slot(e) := Flag(true, status)]
    {
      flags := flags[Slot(e) := Flag(true, status)];
    }

    /** CREATED is pended once, by its own raise or synthesized by an abort or a completion. */
    method RaiseCreated(status: int)
      requires Valid()
      modifies this`flags, this`hadCreated
      ensures Valid() && hadCreated
      ensures flags == WithCreated(old(flags), old(hadCreated), status)
    {
      if !hadCreated {
        hadCreated := true;
        Pend(Created, status);
      }
    }

    /** A completion is pended only if a start has enabled it, which it uses up. */
    method RaiseCompleted(e: Event, status: int)
      requires Valid() && e in {ReadCompleted, WriteCompleted}
      modifies this`flags, this`hadCreated, this`readEnabled, this`writeEnabled
      ensures Valid() && hadCreated
      ensures e == ReadCompleted ==> !readEnabled && writeEnabled == old(writeEnabled)
      ensures e == WriteCompleted ==> !writeEnabled && readEnabled == old(readEnabled)
      ensures flags == var f := WithCreated(old(flags), old(hadCreated), status);
                       if old(if e == ReadCompleted then readEnabled else writeEnabled)
                       then f[Slot(e) := Flag(true, status)] else f
    {
      RaiseCreated(status);
      if e == ReadCompleted {
        if readEnabled {
          Pend(e, status);
          readEnabled := false;
        }
      } else if writeEnabled {
        Pend(e, status);
        writeEnabled := false;
      }
    }

    method RaiseAborted(status: int)
      requires Valid()
      modifies this`flags, this`hadCreated
      ensures Valid() && hadCreated
      ensures flags == WithCreated(old(flags), old(hadCreated), status)[Slot(Aborted) := Flag(true, status)]
    {
      RaiseCreated(status);
      Pend(Aborted, status);
    }

    /** A start enables one completion, however many starts coalesce. */
    method RaiseStarted(e: Event, status: int)
      requires Valid() && e in {ReadStarted, WriteStarted}
      modifies this`flags, this`readEnabled, this`writeEnabled, this`readStarts, this`writeStarts
      ensures Valid() && flags == old(flags)[Slot(e) := Flag(true, status)]
      ensures readEnabled == (old(readEnabled) || e == ReadStarted)
      ensures writeEnabled == (old(writeEnabled) || e == WriteStarted)
      ensures readStarts == old(readStarts) + (if e == ReadStarted then 1 else 0)
      ensures writeStarts == old(writeStarts) + (if e == WriteStarted then 1 else 0)
    {
      Pend(e, status);
      if e == ReadStarted {
        readEnabled := true;
        readStarts := readStarts + 1;
      } else {
        writeEnabled := true;
        writeStarts := writeStarts + 1;
      }
    }

    /** tag_raise_event. Nothing is stacked up without a callback. */
    method Raise(e: Event, status: int)
      requires Valid()
      modifies this`flags, this`hadCreated, this`readEnabled, this`writeEnabled, this`readStarts, this`writeStarts
      ensures Valid()
      ensures readStarts == old(readStarts) + (if hasCallback && e == ReadStarted then 1 else 0)
      ensures writeStarts == old(writeStarts) + (if hasCallback && e == WriteStarted then 1 else 0)
      ensures !hasCallback ==> flags == old(flags) && hadCreated == old(hadCreated)
      ensures !hasCallback ==> readEnabled == old(readEnabled) && writeEnabled == old(writeEnabled)
      ensures hasCallback ==> hadCreated == (old(hadCreated) || Late(e) || e == Created)
      ensures hasCallback ==> readEnabled == ((old(readEnabled) || e == ReadStarted) && e != ReadCompleted)
      ensures hasCallback ==> writeEnabled == ((old(writeEnabled) || e == WriteStarted) && e != WriteCompleted)
      ensures hasCallback ==> forall f: Event ::
                flags[Slot(f)] == if Pends(f, e, old(hadCreated), old(readEnabled), old(writeEnabled))
                                  then Flag(true, status) else old(flags)[Slot(f)]
    {
      if !hasCallback {
        return;
      }
      match e {
        case Aborted =>
          RaiseAborted(status);
        case Created =>
          RaiseCreated(status);
        case Destroyed =>
          Pend(Destroyed, status);
        case ReadCompleted =>
          RaiseCompleted(e, status);
        case WriteCompleted =>
          RaiseCompleted(e, status);
        case ReadStarted =>
          RaiseStarted(e, status);
        case WriteStarted =>
          RaiseStarted(e, status);
      }
    }

    /** Clears the flags one by one, in dispatch order. */
    method Collect() returns (calls: seq<Call>)
      requires |flags| == 7
      modifies this`flags
      ensures calls == Calls(old(flags), 7)
      ensures forall i :: 0 <= i < |calls| ==> old(flags)[Slot(calls[i].event)] == Flag(true, calls[i].status)
      ensures forall i, j :: 0 <= i < j < |calls| ==> MayPrecede(calls[i].event, calls[j].event)
      ensures |flags| == 7 && forall k :: 0 <= k < 7 ==> !flags[k].pending
    {
      calls := [];
      ghost var was := flags;
      for k := 0 to 7
        invariant |flags| == 7 && calls == Calls(was, k)
        invariant forall j :: 0 <= j < k ==> !flags[j].pending
        invariant forall j :: k <= j < 7 ==> flags[j] == was[j]
      {
        if flags[k].pending {
          calls := calls + [Call(DISPATCH_ORDER[k], flags[k].status)];
          flags := flags[k := CLEAR];
        }
      }
      BatchInOrder(was);
    }

    /** plc_tag_generic_handle_event_callbacks, with a callback that does not call back in. */
    method Dispatch() returns (calls: seq<Call>)
      requires Valid()
      modifies this`flags, this`log
      ensures Valid()
      ensures calls == if hasCallback then Calls(old(flags), 7) else []
      ensures forall i :: 0 <= i < |calls| ==> old(flags)[Slot(calls[i].event)] == Flag(true, calls[i].status)
      ensures forall i, j :: 0 <= i < j < |calls| ==> MayPrecede(calls[i].event, calls[j].event)
      ensures log == old(log) + calls
      ensures hasCallback ==> |flags| == 7 && forall k :: 0 <= k < 7 ==> !flags[k].pending
      ensures !hasCallback ==> flags == old(flags)
    {
      calls := [];
      if !hasCallback {
        assert log + [] == log;
        return;
      }
      BatchKeepsOrder();
      calls := Collect();
      log := log + calls;
    }

    static lemma BatchInOrder(f: seq<Flag>)
      requires |f| == 7
      ensures forall i :: 0 <= i < |Calls(f, 7)| ==> f[Slot(Calls(f, 7)[i].event)] == Flag(true, Calls(f, 7)[i].status)
      ensures forall i, j :: 0 <= i < j < |Calls(f, 7)| ==> MayPrecede(Calls(f, 7)[i].event, Calls(f, 7)[j].event)
    {
      var c := Calls(f, 7);
      forall i | 0 <= i < |c|
        ensures f[Slot(c[i].event)] == Flag(true, c[i].status)
      {
        CallsCarryStatus(f, 7, i);
      }
      forall i, j | 0 <= i < j < |c|
        ensures MayPrecede(c[i].event, c[j].event)
      {
        CallsOrdered(f, 7, i, j);
        SlotsPrecede(c[i].event, c[j].event);
      }
    }

    lemma BatchKeepsOrder()
      requires Valid()
      ensures CreatedFirst(log + Calls(flags, 7))
      ensures Count(log + Calls(flags, 7), Created) == Due(Created, false)
      ensures Count(log + Calls(flags, 7), ReadCompleted) == Due(ReadCompleted, false)
      ensures Count(log + Calls(flags, 7), WriteCompleted) == Due(WriteCompleted, false)
    {
      var batch := Calls(flags, 7);
      CountConcat(log, batch, Created);
      CountConcat(log, batch, ReadCompleted);
      CountConcat(log, batch, WriteCompleted);
      CallsCount(flags, 7, Created);
      CallsCount(flags, 7, ReadCompleted);
      CallsCount(flags, 7, WriteCompleted);
      if i: nat :| i < |batch| && Late(batch[i].event) {
        LateIsPending(flags, 7, i);
        assert IsPending(Aborted) || IsPending(ReadCompleted) || IsPending(WriteCompleted);
        if flags[0].pending {
          CreatedLeads(flags, 7);
        } else {
          assert !IsPending(Created);
        }
      }
      CreatedFirstConcat(log, batch);
    }

    /** plc_tag_register_callback_ex with a non-null function. */
    method Register() returns (rc: int)
      requires Valid()
      modifies this`hasCallback
      ensures Valid() && hasCallback && rc == if old(hasCallback) then ERR_DUPLICATE else STATUS_OK
    {
      rc := if hasCallback then ERR_DUPLICATE else STATUS_OK;
      hasCallback := true;
    }

    /** plc_tag_unregister_callback: pending flags stay. */
    method Unregister() returns (rc: int)
      requires Valid()
      modifies this`hasCallback
      ensures Valid() && !hasCallback && rc == if old(hasCallback) then STATUS_OK else ERR_NOT_FOUND
    {
      rc := if hasCallback then STATUS_OK else ERR_NOT_FOUND;
      hasCallback := false;
    }
  }

  datatype Op = RaiseOp(e: Event, status: int) | DispatchOp | RegisterOp | UnregisterOp

  /** How often an event was raised in a run. */
  function Raised(ops: seq<Op>, e: Event): nat {
    if ops == [] then 0
    else Raised(ops[..|ops| - 1], e) + (if ops[|ops| - 1].RaiseOp? && ops[|ops| - 1].e == e then 1 else 0)
  }

  // What a sequence of operations asks for, said of the operations alone.

  predicate Registered(cb: bool, ops: seq<Op>) {
    if ops == [] then cb
    else
      var op := ops[|ops| - 1];
      op.RegisterOp? || (!op.UnregisterOp? && Registered(cb, ops[..|ops| - 1]))
  }

  /** The last operation raises the event with a callback registered. */
  predicate Raises(cb: bool, ops: seq<Op>, e: Event) {
    ops != [] && ops[|ops| - 1].RaiseOp? && ops[|ops| - 1].e == e && Registered(cb, ops[..|ops| - 1])
  }

  predicate CreatedRaised(cb: bool, ops: seq<Op>) {
    ops != [] &&
      (CreatedRaised(cb, ops[..|ops| - 1]) || Raises(cb, ops, Created) || Raises(cb, ops, Aborted)
       || Raises(cb, ops, ReadCompleted) || Raises(cb, ops, WriteCompleted))
  }

  /** There has been a start since the last completion. */
  predicate Open(cb: bool, ops: seq<Op>, start: Event, completion: Event) {
    ops != [] &&
      (Raises(cb, ops, start)
       || (!Raises(cb, ops, completion) && Open(cb, ops[..|ops| - 1], start, completion)))
  }

  /** The last operation makes a call of e due. */
  predicate MakesDue(cb: bool, ops: seq<Op>, e: Event) {
    && ops != [] && ops[|ops| - 1].RaiseOp? && Registered(cb, ops[..|ops| - 1])
    && var before := ops[..|ops| - 1];
    Pends(e, ops[|ops| - 1].e, CreatedRaised(cb, before), Open(cb, before, ReadStarted, ReadCompleted),
          Open(cb, before, WriteStarted, WriteCompleted))
  }

  /** A call of e is due: it was made due, and no dispatch has found a callback since. */
  predicate IsDue(cb: bool, ops: seq<Op>, e: Event) {
    ops != [] &&
      (MakesDue(cb, ops, e)
       || (IsDue(cb, ops[..|ops| - 1], e) && !(ops[|ops| - 1].DispatchOp? && Registered(cb, ops[..|ops| - 1]))))
  }

  /** The status of the raise that made e due last. */
  function LastStatus(cb: bool, ops: seq<Op>, e: Event): int {
    if ops == [] then STATUS_OK
    else if MakesDue(cb, ops, e) then ops[|ops| - 1].status else LastStatus(cb, ops[..|ops| - 1], e)
  }

  function DueCall(cb: bool, ops: seq<Op>, e: Event): seq<Call> {
    if IsDue(cb, ops, e) then [Call(e, LastStatus(cb, ops, e))] else []
  }

  /** What a dispatch has to deliver, in this order. */
  function DueBatch(cb: bool, ops: seq<Op>): seq<Call> {
    DueCall(cb, ops, Created) + DueCall(cb, ops, ReadStarted) + DueCall(cb, ops, WriteStarted)
    + DueCall(cb, ops, Aborted) + DueCall(cb, ops, ReadCompleted) + DueCall(cb, ops, WriteCompleted)
    + DueCall(cb, ops, Destroyed)
  }

  /** The callback calls of a whole run. */
  function Delivered(cb: bool, ops: seq<Op>): seq<Call> {
    if ops == [] then []
    else
      var before := ops[..|ops| - 1];
      if ops[|ops| - 1].DispatchOp? && Registered(cb, before) then Delivered(cb, before) + DueBatch(cb, before)
      else Delivered(cb, before)
  }

  lemma DeliveredStep(cb: bool, ops: seq<Op>, op: Op)
    ensures Delivered(cb, ops + [op])
         == if op.DispatchOp? && Registered(cb, ops) then Delivered(cb, ops) + DueBatch(cb, ops) else Delivered(cb, ops)
  {
    assert (ops + [op])[..|ops|] == ops;
  }

  /** The fields of the tag after these operations. */
  ghost predicate Tracks(tag: TagEvents, cb: bool, ops: seq<Op>)
    reads tag
  {
    && tag.Valid() && tag.hasCallback == Registered(cb, ops) && tag.hadCreated == CreatedRaised(cb, ops)
    && tag.readEnabled == Open(cb, ops, ReadStarted, ReadCompleted)
    && tag.writeEnabled == Open(cb, ops, WriteStarted, WriteCompleted)
    && tag.log == Delivered(cb, ops)
    && forall e: Event :: FlagRight(tag.flags, cb, ops, e)
  }

  ghost predicate FlagRight(flags: seq<Flag>, cb: bool, ops: seq<Op>, e: Event)
    requires |flags| == 7
  {
    && flags[Slot(e)].pending == IsDue(cb, ops, e)
    && (IsDue(cb, ops, e) ==> flags[Slot(e)].status == LastStatus(cb, ops, e))
  }

  lemma BatchIsDue(flags: seq<Flag>, cb: bool, ops: seq<Op>)
    requires |flags| == 7 && forall e: Event :: FlagRight(flags, cb, ops, e)
    ensures Calls(flags, 7) == DueBatch(cb, ops)
  {
    CallsUnrolled(flags);
    DueIsFlag(flags, cb, ops, Created);
    DueIsFlag(flags, cb, ops, ReadStarted);
    DueIsFlag(flags, cb, ops, WriteStarted);
    DueIsFlag(flags, cb, ops, Aborted);
    DueIsFlag(flags, cb, ops, ReadCompleted);
    DueIsFlag(flags, cb, ops, WriteCompleted);
    DueIsFlag(flags, cb, ops, Destroyed);
  }

  lemma DueIsFlag(flags: seq<Flag>, cb: bool, ops: seq<Op>, e: Event)
    requires |flags| == 7 && FlagRight(flags, cb, ops, e)
    ensures CallIf(flags[Slot(e)], e) == DueCall(cb, ops, e)
  {
  }

  method DoRaise(tag: TagEvents, e: Event, status: int, ghost cb: bool, ghost ops: seq<Op>)
    requires Tracks(tag, cb, ops)
    modifies tag
    ensures Tracks(tag, cb, ops + [RaiseOp(e, status)])
    ensures tag.readStarts <= old(tag.readStarts) + (if e == ReadStarted then 1 else 0)
    ensures tag.writeStarts <= old(tag.writeStarts) + (if e == WriteStarted then 1 else 0)
  {
    ghost var ops' := ops + [RaiseOp(e, status)];
    assert ops'[..|ops|] == ops;
    tag.Raise(e, status);
    forall f: Event
      ensures FlagRight(tag.flags, cb, ops', f)
    {
      assert FlagRight(old(tag.flags), cb, ops, f);
    }
  }

  lemma DispatchFlag(cb: bool, ops: seq<Op>, e: Event)
    ensures IsDue(cb, ops + [DispatchOp], e) <==> IsDue(cb, ops, e) && !Registered(cb, ops)
    ensures LastStatus(cb, ops + [DispatchOp], e) == LastStatus(cb, ops, e)
  {
    assert (ops + [DispatchOp])[..|ops|] == ops;
  }

  method DispatchBatch(tag: TagEvents, ghost cb: bool, ghost ops: seq<Op>, ghost batch: seq<Call>)
    returns (calls: seq<Call>)
    requires Tracks(tag, cb, ops) && Calls(tag.flags, 7) == batch
    requires Delivered(cb, ops + [DispatchOp])
          == if Registered(cb, ops) then Delivered(cb, ops) + batch else Delivered(cb, ops)
    modifies tag
    ensures Tracks(tag, cb, ops + [DispatchOp]) && tag.log == old(tag.log) + calls
    ensures tag.readStarts == old(tag.readStarts) && tag.writeStarts == old(tag.writeStarts)
  {
    ghost var ops' := ops + [DispatchOp];
    assert ops'[..|ops|] == ops;
    calls := tag.Dispatch();
    forall f: Event
      ensures FlagRight(tag.flags, cb, ops', f)
    {
      assert FlagRight(old(tag.flags), cb, ops, f);
      DispatchFlag(cb, ops, f);
    }
  }

  method DoDispatch(tag: TagEvents, ghost cb: bool, ghost ops: seq<Op>) returns (calls: seq<Call>)
    requires Tracks(tag, cb, ops)
    modifies tag
    ensures Tracks(tag, cb, ops + [DispatchOp]) && tag.log == old(tag.log) + calls
    ensures tag.readStarts == old(tag.readStarts) && tag.writeStarts == old(tag.writeStarts)
  {
    BatchIsDue(tag.flags, cb, ops);
    DeliveredStep(cb, ops, DispatchOp);
    calls := DispatchBatch(tag, cb, ops, DueBatch(cb, ops));
  }

  method DoRegistration(tag: TagEvents, op: Op, ghost cb: bool, ghost ops: seq<Op>)
    requires Tracks(tag, cb, ops) && (op.RegisterOp? || op.UnregisterOp?)
    modifies tag
    ensures Tracks(tag, cb, ops + [op]) && tag.log == old(tag.log)
    ensures tag.readStarts == old(tag.readStarts) && tag.writeStarts == old(tag.writeStarts)
  {
    ghost var ops' := ops + [op];
    assert ops'[..|ops|] == ops;
    var rc;
    if op.RegisterOp? {
      rc := tag.Register();
    } else {
      rc := tag.Unregister();
    }
    forall f: Event
      ensures FlagRight(tag.flags, cb, ops', f)
    {
      assert FlagRight(old(tag.flags), cb, ops, f);
    }
  }

  /** Over every run: the calls are exactly those due, each with the status of the raise that made
      it due last; CREATED is delivered at most once and before any abort or completion, and
      completions never outnumber the starts raised. */
  method Run(hasCallback: bool, ops: seq<Op>) returns (calls: seq<Call>)
    ensures calls == Delivered(hasCallback, ops)
    ensures Count(calls, Created) <= 1 && CreatedFirst(calls)
    ensures Count(calls, ReadCompleted) <= Raised(ops, ReadStarted)
    ensures Count(calls, WriteCompleted) <= Raised(ops, WriteStarted)
  {
    var tag := new TagEvents(hasCallback);
    calls := [];
    for i := 0 to |ops|
      invariant fresh(tag) && Tracks(tag, hasCallback, ops[..i]) && calls == tag.log
      invariant tag.readStarts <= Raised(ops[..i], ReadStarted) && tag.writeStarts <= Raised(ops[..i], WriteStarted)
    {
      assert ops[..i + 1] == ops[..i] + [ops[i]] && ops[..i + 1][..i] == ops[..i];
      match ops[i] {
        case RaiseOp(e, status) =>
          DoRaise(tag, e, status, hasCallback, ops[..i]);
        case DispatchOp =>
          var batch := DoDispatch(tag, hasCallback, ops[..i]);
          calls := calls + batch;
        case RegisterOp =>
          DoRegistration(tag, ops[i], hasCallback, ops[..i]);
        case UnregisterOp =>
          DoRegistration(tag, ops[i], hasCallback, ops[..i]);
      }
    }
    assert ops[..|ops|] == ops;
  }
}
