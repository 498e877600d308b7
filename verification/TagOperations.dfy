/** The operation flags of one tag: explicit and automatic reads and writes, completions and
    aborts, each critical block of the API mutex being one step. */
module TagOperations {
  import opened Bits
  import opened Status

  const TICKLER_TIMEOUT_MS := 100
  const TICKLER_TIMEOUT_MIN_MS := 10

  datatype Kind = Read | Write

  /** The flags a step may change. */
  datatype Flags = Flags(readInFlight: bool, writeInFlight: bool, dirty: bool)

  /** What every step keeps: `started` are the operations it started. */
  predicate StepOk(a: Flags, b: Flags, started: set<Kind>) {
    && !(b.readInFlight && b.writeInFlight)
    && (Read in started ==> !b.dirty)
    && (a.dirty && !b.dirty ==> Write in started)
    && (b.readInFlight && !a.readInFlight ==> Read in started)
    && (b.writeInFlight && !a.writeInFlight ==> Write in started)
  }

  /** The number of whole periods that brings an overdue time to now or later. */
  function Periods(late: int, period: int): int
    requires period > 0
  {
    (late + (period - 1)) / period
  }

  lemma PeriodsRoundUp(late: int, period: int)
    requires late > 0 && period > 0
    ensures late <= Periods(late, period) * period < late + period
  {
  }

  /** Rescheduling lands in [now, now + period) without drifting off the grid. */
  lemma Reschedule(next: int, now: int, period: int)
    requires period > 0 && next < now
    ensures now <= next + Periods(now - next, period) * period < now + period
    ensures (next + Periods(now - next, period) * period) % period == next % period
  {
    PeriodsRoundUp(now - next, period);
    var p := Periods(now - next, period);
    assert next + p * period == (next / period) * period + p * period + next % period;
    assert (next / period) * period + p * period == (next / period + p) * period;
    ModUnique(next + p * period, period, next / period + p, next % period);
  }

  class TagOps {
    var readInFlight: bool
    var writeInFlight: bool
    var readComplete: bool
    var writeComplete: bool
    var dirty: bool
    var abortRequested: bool
    var nextRead: int
    var nextWrite: int
    const readMs: nat
    const writeMs: nat
    ghost var clock: int  // the time of the latest tickle

    ghost function Now(): Flags
      reads this
    {
      Flags(readInFlight, writeInFlight, dirty)
    }

    /** Never both in flight; a queued automatic write is at most one delay away. */
    ghost predicate Valid()
      reads this
    {
      && !(readInFlight && writeInFlight)
      && (writeMs > 0 || !dirty)
      && clock > 0 && (nextWrite == 0 || nextWrite <= clock + writeMs)
    }

    constructor (readMs: nat, writeMs: nat, firstRead: int, now: int)
      requires now > 0
      ensures Valid() && Now() == Flags(false, false, false)
      ensures nextRead == firstRead && nextWrite == 0 && clock == now
      ensures this.readMs == readMs && this.writeMs == writeMs
    {
      readInFlight, writeInFlight, readComplete, writeComplete := false, false, false, false;
      dirty, abortRequested := false, false;
      nextRead, nextWrite := firstRead, 0;
      this.readMs, this.writeMs := readMs, writeMs;
      clock := now;
    }

    /** A call through the vtable: it may report completions and drop operations, but never starts
        one and never takes a completion back. What it drops is reported, so that a contract can
        say what is in flight otherwise. */
    method Protocol() returns (dropped: set<Kind>)
      modifies this`readInFlight, this`writeInFlight, this`readComplete, this`writeComplete
      ensures readInFlight == (old(readInFlight) && Read !in dropped)
      ensures writeInFlight == (old(writeInFlight) && Write !in dropped)
      ensures (old(readComplete) ==> readComplete) && (old(writeComplete) ==> writeComplete)
    {
      dropped := *;
      if Read in dropped {
        readInFlight := false;
      }
      if Write in dropped {
        writeInFlight := false;
      }
      var readAll, wroteAll := *, *;
      readComplete, writeComplete := readComplete || readAll, writeComplete || wroteAll;
    }

    /** The automatic-write part of plc_tag_generic_tickler. */
    method TickleWrite(now: int) returns (started: set<Kind>, dropped: set<Kind>)
      requires Valid() && clock == now
      modifies this`readInFlight, this`writeInFlight, this`readComplete, this`writeComplete, this`dirty, this`nextWrite
      ensures Valid() && started <= {Write} && StepOk(old(Now()), Now(), started)
      ensures started == {Write} <==> old(dirty) && !old(writeInFlight) && old(nextWrite) != 0 && old(nextWrite) <= now
      ensures started == {Write} ==> old(dirty) && !dirty && nextWrite == 0
      ensures started == {Write} ==> !readInFlight && (writeInFlight <==> Write !in dropped)
      ensures old(dirty) ==> !readInFlight
      ensures !old(dirty) ==> Now() == old(Now())
      ensures started == {} ==> dirty == old(dirty)
      ensures started == {} && dirty ==> nextWrite == if old(nextWrite) == 0 then now + writeMs else old(nextWrite)
      ensures old(dirty) && old(writeInFlight) ==> dirty && writeInFlight
    {
      started, dropped := {}, {};
      if writeMs > 0 && dirty {
        if readInFlight {
          dropped := Protocol();
          readComplete := false;
          readInFlight := false;
        }
        if nextWrite == 0 {
          nextWrite := now + writeMs;
        } else if !writeInFlight && nextWrite <= now {
          dirty := false;
          writeInFlight := true;
          nextWrite := 0;
          started := {Write};
          dropped := Protocol();
        }
      }
    }

    /** The automatic-read part of plc_tag_generic_tickler. */
    method TickleRead(now: int) returns (started: set<Kind>, dropped: set<Kind>)
      requires Valid()
      modifies this`readInFlight, this`writeInFlight, this`readComplete, this`writeComplete, this`nextRead
      ensures Valid() && started <= {Read} && StepOk(old(Now()), Now(), started)
      ensures started == {Read} <==>
                readMs > 0 && old(nextRead) < now && !old(readInFlight) && !old(writeInFlight) && !dirty
      ensures started == {Read} ==> !writeInFlight && (readInFlight <==> Read !in dropped)
      ensures started == {} ==> nextRead == old(nextRead) && Now() == old(Now())
      ensures started == {Read} ==> readMs > 0 && old(nextRead) < now <= nextRead < now + readMs
      ensures readMs > 0 ==> nextRead % readMs == old(nextRead) % readMs
      ensures dirty ==> Now() == old(Now())
    {
      started, dropped := {}, {};
      if readMs > 0 && nextRead < now {
        if !readInFlight && !dirty && !writeInFlight {
          readInFlight := true;
          started := {Read};
          dropped := Protocol();
          Reschedule(nextRead, now, readMs);
          nextRead := nextRead + Periods(now - nextRead, readMs) * readMs;
        }
      }
    }

    /** plc_tag_generic_tickler */
    method Tickle(now: int) returns (started: set<Kind>, ghost dropped: set<Kind>)
      requires Valid() && now >= clock
      modifies this
      ensures Valid() && StepOk(old(Now()), Now(), started) && clock == now
      ensures old(abortRequested) ==> started == {} && Now() == Flags(false, false, old(dirty)) && !abortRequested
                                      && nextRead == old(nextRead) && nextWrite == old(nextWrite)
                                      && !readComplete && !writeComplete
      ensures Write in started <==>
                !old(abortRequested) && old(dirty) && !old(writeInFlight) && old(nextWrite) != 0
                    && old(nextWrite) <= now
      ensures !old(abortRequested) && Write !in started ==> dirty == old(dirty)
      ensures !old(abortRequested) && Write !in started && dirty ==>
                nextWrite == if old(nextWrite) == 0 then now + writeMs else old(nextWrite)
      ensures !old(abortRequested) && !old(dirty) && !old(readInFlight) && !old(writeInFlight) ==>
                (Read in started <==> readMs > 0 && old(nextRead) < now)
      ensures Read in started ==> (readInFlight <==> Read !in dropped)
      ensures Write in started ==> (writeInFlight <==> Write !in dropped)
      ensures Read !in started ==> nextRead == old(nextRead)
      ensures Read in started ==> readMs > 0 && old(nextRead) < now <= nextRead < now + readMs
      ensures readMs > 0 ==> nextRead % readMs == old(nextRead) % readMs
      ensures !abortRequested
      ensures old(dirty) && old(writeInFlight) && !old(abortRequested) ==> writeInFlight
    {
      clock := now;
      if abortRequested {
        dropped := Protocol();
        readComplete, readInFlight, writeComplete, writeInFlight := false, false, false, false;
        abortRequested := false;
        return {}, {};
      }
      var w, dropped1 := TickleWrite(now);
      var r, dropped2 := TickleRead(now);
      started := w + r;
      dropped := (if w == {} then {} else dropped1 * {Write}) + (if r == {} then {} else dropped2 * {Read});
    }

    /** The completion handling of tag_tickler_func after the protocol's own tickler; `readAll`
        and `wroteAll` say that the protocol reported a finished read or write. */
    method ProtocolTickle() returns (started: set<Kind>, readAll: bool, wroteAll: bool, ghost dropped: set<Kind>)
      requires Valid()
      modifies this`readInFlight, this`writeInFlight, this`readComplete, this`writeComplete, this`nextWrite
      ensures Valid() && started == {} && StepOk(old(Now()), Now(), started)
      ensures !readComplete && !writeComplete
      ensures readInFlight == (old(readInFlight) && Read !in dropped && !readAll)
      ensures writeInFlight == (old(writeInFlight) && Write !in dropped && !wroteAll)
      ensures wroteAll ==> nextWrite == 0
      ensures !wroteAll ==> nextWrite == old(nextWrite)
    {
      dropped := Protocol();
      readAll, wroteAll := readComplete, writeComplete;
      if readComplete {
        readComplete := false;
        readInFlight := false;
      }
      if writeComplete {
        writeComplete := false;
        writeInFlight := false;
        nextWrite := 0;
      }
      started := {};
    }

    /** The critical block of plc_tag_abort_impl; `result` is what the protocol's abort returns. */
    method ServeAbort(result: int) returns (rc: int, started: set<Kind>)
      requires Valid()
      modifies this`readInFlight, this`writeInFlight, this`readComplete, this`writeComplete, this`abortRequested
      ensures Valid() && !abortRequested && started == {} && StepOk(old(Now()), Now(), started)
      ensures old(abortRequested) ==> !readInFlight && !writeInFlight
      ensures old(abortRequested) && old(readInFlight) ==> readComplete
      ensures old(abortRequested) && old(writeInFlight) ==> writeComplete
      ensures !old(abortRequested) ==>
                Now() == old(Now()) && readComplete == old(readComplete) && writeComplete == old(writeComplete)
      ensures rc == if old(abortRequested) then result else STATUS_OK
    {
      rc, started := STATUS_OK, {};
      if abortRequested {
        abortRequested := false;
        readComplete := readInFlight;
        readInFlight := false;
        writeComplete := writeInFlight;
        writeInFlight := false;
        var dropped := Protocol();
        rc := result;
      }
    }

    /** The start of plc_tag_read; `result` is what the protocol's read returns. A start that fails
        answers with the status of the abort that cleans up after it, not with its own. */
    method StartRead(cached: bool, result: int, abortResult: int)
      returns (rc: int, started: set<Kind>, ghost dropped: set<Kind>)
      requires Valid()
      modifies this`readInFlight, this`writeInFlight, this`readComplete, this`writeComplete, this`abortRequested
      ensures Valid() && started <= {Read} && StepOk(old(Now()), Now(), started)
      ensures started == {Read} <==> !cached && !old(readInFlight) && !old(writeInFlight) && !dirty
      ensures rc == if cached then STATUS_OK else if started == {} then ERR_BUSY
                    else if result in {STATUS_OK, STATUS_PENDING} then result else abortResult
      ensures started == {} ==> Now() == old(Now())
      ensures abortRequested ==> old(abortRequested)
      ensures started == {Read} ==> (readInFlight <==> result == STATUS_PENDING && Read !in dropped)
    {
      rc, started, dropped := STATUS_OK, {}, {};
      if cached {
        return;
      }
      if readInFlight || writeInFlight || dirty {
        return ERR_BUSY, {}, {};
      }
      readInFlight := true;
      started := {Read};
      dropped := Protocol();
      rc := result;
      if rc != STATUS_PENDING {
        if rc != STATUS_OK {
          abortRequested := true;
          var none;
          rc, none := ServeAbort(abortResult);
        }
        readInFlight := false;
      }
    }

    /** The start of plc_tag_write; it leaves the dirty flag alone. */
    method StartWrite(result: int) returns (rc: int, started: set<Kind>, ghost dropped: set<Kind>)
      requires Valid()
      modifies this`readInFlight, this`writeInFlight, this`readComplete, this`writeComplete
      ensures Valid() && started <= {Write} && StepOk(old(Now()), Now(), started)
      ensures started == {Write} <==> !old(readInFlight) && !old(writeInFlight)
      ensures rc == if started == {} then ERR_BUSY else result
      ensures started == {} ==> Now() == old(Now())
      ensures started == {Write} ==> (writeInFlight <==> result == STATUS_PENDING && Write !in dropped)
    {
      if readInFlight || writeInFlight {
        return ERR_BUSY, {}, {};
      }
      writeInFlight := true;
      started := {Write};
      dropped := Protocol();
      rc := result;
      if rc != STATUS_PENDING {
        if rc != STATUS_OK {
          dropped := Protocol();
        }
        writeInFlight := false;
      }
    }

    /** A data accessor changed the buffer. */
    method Modified() returns (started: set<Kind>)
      requires Valid()
      modifies this`dirty
      ensures Valid() && started == {} && StepOk(old(Now()), Now(), started) && dirty == (old(dirty) || writeMs > 0)
    {
      if writeMs > 0 {
        dirty := true;
      }
      started := {};
    }

    /** A blocking call of plc_tag_read or plc_tag_write has finished waiting. */
    method WaitOver(kind: Kind) returns (started: set<Kind>)
      requires Valid()
      modifies this`readInFlight, this`writeInFlight, this`readComplete, this`writeComplete
      ensures Valid() && started == {} && StepOk(old(Now()), Now(), started)
      ensures if kind == Read then !readInFlight && writeInFlight == old(writeInFlight)
                              else !writeInFlight && readInFlight == old(readInFlight)
      ensures if kind == Read then !readComplete && writeComplete == old(writeComplete)
                              else !writeComplete && readComplete == old(readComplete)
    {
      if kind == Read {
        readInFlight, readComplete := false, false;
      } else {
        writeInFlight, writeComplete := false, false;
      }
      started := {};
    }
  }

  datatype Op =
    | DoTickle(now: int)
    | DoProtocolTickle
    | DoStartRead(cached: bool, result: int, abortResult: int)
    | DoStartWrite(result: int)
    | DoModified
    | DoRequestAbort
    | DoServeAbort(abortResult: int)
    | DoWaitOver(kind: Kind)

  /** Tickles see a clock that does not run backwards. */
  predicate TimesFrom(ops: seq<Op>, t: int) {
    && (forall i :: 0 <= i < |ops| && ops[i].DoTickle? ==> t <= ops[i].now)
    && (forall i, j :: 0 <= i < j < |ops| && ops[i].DoTickle? && ops[j].DoTickle? ==> ops[i].now <= ops[j].now)
  }

  /** One step; `wroteAll` says that it reported a finished write. */
  method Do(tag: TagOps, op: Op) returns (started: set<Kind>, wroteAll: bool)
    requires tag.Valid() && (op.DoTickle? ==> op.now >= tag.clock)
    modifies tag
    ensures tag.Valid() && StepOk(old(tag.Now()), tag.Now(), started)
    ensures tag.clock == if op.DoTickle? then op.now else old(tag.clock)
    ensures tag.readMs > 0 ==> tag.nextRead % tag.readMs == old(tag.nextRead) % tag.readMs
    ensures wroteAll ==> op.DoProtocolTickle?
    ensures tag.abortRequested ==> old(tag.abortRequested) || op.DoRequestAbort?
    ensures op.DoRequestAbort? ==> tag.abortRequested && tag.Now() == old(tag.Now())
    ensures !op.DoTickle? && old(tag.dirty) ==> tag.dirty && (wroteAll || tag.nextWrite == old(tag.nextWrite))
    ensures op.DoTickle? && old(tag.dirty) && !old(tag.abortRequested) && Write !in started ==>
              tag.dirty && tag.nextWrite == if old(tag.nextWrite) == 0 then op.now + tag.writeMs else old(tag.nextWrite)
  {
    wroteAll := false;
    var rc, readAll;
    ghost var dropped;
    match op {
      case DoTickle(now) => started, dropped := tag.Tickle(now);
      case DoProtocolTickle => started, readAll, wroteAll, dropped := tag.ProtocolTickle();
      case DoStartRead(cached, result, abortResult) =>
        rc, started, dropped := tag.StartRead(cached, result, abortResult);
      case DoStartWrite(result) => rc, started, dropped := tag.StartWrite(result);
      case DoModified => started := tag.Modified();
      case DoRequestAbort => tag.abortRequested := true; started := {};
      case DoServeAbort(result) => rc, started := tag.ServeAbort(result);
      case DoWaitOver(kind) => started := tag.WaitOver(kind);
    }
  }

  /** Over every run: never two operations in flight, no read starts on a dirty tag, the dirty
      flag is cleared only by starting a write, and the read times never leave their grid. */
  method Run(tag: TagOps, ops: seq<Op>) returns (ghost states: seq<Flags>, starts: seq<set<Kind>>)
    requires tag.Valid() && TimesFrom(ops, tag.clock)
    modifies tag
    ensures tag.Valid() && |starts| == |ops| && |states| == |ops| + 1
    ensures states[0] == old(tag.Now()) && states[|ops|] == tag.Now()
    ensures forall i :: 0 <= i < |ops| ==> StepOk(states[i], states[i + 1], starts[i])
    ensures tag.readMs > 0 ==> tag.nextRead % tag.readMs == old(tag.nextRead) % tag.readMs
  {
    states, starts := [tag.Now()], [];
    for i := 0 to |ops|
      invariant tag.Valid() && |starts| == i && |states| == i + 1 && states[0] == old(tag.Now())
                  && states[i] == tag.Now()
      invariant forall j :: i <= j < |ops| && ops[j].DoTickle? ==> tag.clock <= ops[j].now
      invariant forall j :: 0 <= j < i ==> StepOk(states[j], states[j + 1], starts[j])
      invariant tag.readMs > 0 ==> tag.nextRead % tag.readMs == old(tag.nextRead) % tag.readMs
    {
      var started, wroteAll := Do(tag, ops[i]);
      states, starts := states + [tag.Now()], starts + [started];
    }
  }

  predicate NoAbort(ops: seq<Op>) {
    forall i :: 0 <= i < |ops| ==> !ops[i].DoRequestAbort?
  }

  /** Two tickles at least one delay apart start the write of a dirty tag, whatever happens between
      them, unless an abort is requested, the protocol reports a finished write, or an explicit
      write is still in flight at the end. */
  method WriteStartsWithinDelay(tag: TagOps, now1: int, ops: seq<Op>, now2: int) returns (wrote: bool, wroteAll: bool)
    requires tag.Valid() && tag.dirty && !tag.abortRequested
    requires tag.clock <= now1 && now1 + tag.writeMs <= now2 && TimesFrom(ops, now1)
    requires forall i :: 0 <= i < |ops| && ops[i].DoTickle? ==> ops[i].now <= now2
    modifies tag
    ensures tag.Valid() && (NoAbort(ops) ==> wrote || wroteAll || tag.writeInFlight)
    ensures wroteAll ==> DoProtocolTickle in ops
  {
    ghost var dropped;
    var started;
    started, dropped := tag.Tickle(now1);
    wrote, wroteAll := Write in started, false;
    for i := 0 to |ops|
      invariant tag.Valid() && now1 <= tag.clock <= now2
      invariant forall j :: i <= j < |ops| && ops[j].DoTickle? ==> tag.clock <= ops[j].now <= now2
      invariant NoAbort(ops) ==> !tag.abortRequested
      invariant NoAbort(ops) ==>
                  wrote || wroteAll || (tag.dirty && tag.nextWrite != 0 && tag.nextWrite <= now1 + tag.writeMs)
      invariant wroteAll ==> DoProtocolTickle in ops
    {
      var done;
      started, done := Do(tag, ops[i]);
      wrote := wrote || (ops[i].DoTickle? && Write in started);
      wroteAll := wroteAll || done;
    }
    started, dropped := tag.Tickle(now2);
    wrote := wrote || Write in started;
  }

  /** The times of a tag the tickler looks at; zero means none. */
  datatype Deadlines = Deadlines(nextWrite: int, nextRead: int)

  /** Some tag has a deadline no later than t. */
  predicate DueBy(tags: seq<Deadlines>, t: int) {
    exists i :: 0 <= i < |tags| && DueOne(tags[i], t)
  }

  predicate DueOne(d: Deadlines, t: int) {
    (d.nextWrite != 0 && d.nextWrite <= t) || (d.nextRead != 0 && d.nextRead <= t)
  }

  /** The sleep at the end of a pass of tag_tickler_func that began at `begin` and now reads
      `now`: at most 100 ms, and past no deadline of a tickled tag but for the 10 ms floor. */
  method TicklerSleep(tags: seq<Deadlines>, begin: int, now: int) returns (wait: int)
    requires begin <= now
    ensures TICKLER_TIMEOUT_MIN_MS <= wait <= TICKLER_TIMEOUT_MS
    ensures forall i :: 0 <= i < |tags| && tags[i].nextWrite != 0 ==>
              now + wait <= tags[i].nextWrite || wait == TICKLER_TIMEOUT_MIN_MS
    ensures forall i :: 0 <= i < |tags| && tags[i].nextRead != 0 ==>
              now + wait <= tags[i].nextRead || wait == TICKLER_TIMEOUT_MIN_MS
    ensures wait == TICKLER_TIMEOUT_MIN_MS ==> begin + TICKLER_TIMEOUT_MS <= now + wait || DueBy(tags, now + wait)
    ensures wait == TICKLER_TIMEOUT_MIN_MS || now + wait == begin + TICKLER_TIMEOUT_MS
            || exists i :: 0 <= i < |tags| && now + wait in {tags[i].nextWrite, tags[i].nextRead}
  {
    var end := begin + TICKLER_TIMEOUT_MS;
    for i := 0 to |tags|
      invariant end <= begin + TICKLER_TIMEOUT_MS
      invariant forall j :: 0 <= j < i && tags[j].nextWrite != 0 ==> end <= tags[j].nextWrite
      invariant forall j :: 0 <= j < i && tags[j].nextRead != 0 ==> end <= tags[j].nextRead
      invariant end == begin + TICKLER_TIMEOUT_MS
                || exists j :: 0 <= j < i && end in {tags[j].nextWrite, tags[j].nextRead}
      invariant end == begin + TICKLER_TIMEOUT_MS || DueBy(tags, end)
    {
      if tags[i].nextWrite != 0 && tags[i].nextWrite < end {
        end := tags[i].nextWrite;
        assert DueOne(tags[i], end);
      }
      if tags[i].nextRead != 0 && tags[i].nextRead < end {
        end := tags[i].nextRead;
        assert DueOne(tags[i], end);
      }
    }
    wait := end - now;
    if wait < TICKLER_TIMEOUT_MIN_MS {
      wait := TICKLER_TIMEOUT_MIN_MS;
    }
    if DueBy(tags, end) {
      ghost var i :| 0 <= i < |tags| && DueOne(tags[i], end);
      assert DueOne(tags[i], now + wait);
    }
  }
}
