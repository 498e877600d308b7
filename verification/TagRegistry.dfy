/** Tag ids: the cycle they run through, how a new tag is given one, and how long an id
    stays out of use. */
module TagRegistry {
  import opened Bits
  import opened Status

  const TAG_ID_MASK := 0xFFF_FFFF
  const MAX_TAG_MAP_ATTEMPTS := 50
  const FIRST_TAG_ID := 10

  /** tag_id_inc */
  function TagIdInc(id: int): int {
    var from := if id <= 0 then TAG_ID_MASK / 2 else id;
    var next := And(from + 1, TAG_ID_MASK);
    if next == 0 then 1 else next
  }

  predicate IsTagId(id: int) {
    1 <= id <= TAG_ID_MASK
  }

  /** One step along the cycle of ids. */
  function Succ(id: int): int {
    if id == TAG_ID_MASK then 1 else id + 1
  }

  /** The id k steps further along. */
  function IdAfter(id: int, k: nat): int {
    if k == 0 then id else Succ(IdAfter(id, k - 1))
  }

  lemma MaskIsPower()
    ensures Pow2(28) == TAG_ID_MASK + 1
  {
    assert Pow2(8) == 0x100;
    assert Pow2(16) == 0x1_0000;
    assert Pow2(24) == 0x100_0000;
  }

  lemma MaskKeepsLow28(x: nat)
    ensures And(x, TAG_ID_MASK) == x % (TAG_ID_MASK + 1)
  {
    MaskIsPower();
    AndMask(x, 28);
  }

  /** Masking with 2^28 - 1 and skipping zero is a step along the cycle; anything that is not
      positive counts as the middle of it. */
  lemma IncStep(id: int)
    requires id <= TAG_ID_MASK
    ensures TagIdInc(id) == Succ(if id <= 0 then TAG_ID_MASK / 2 else id)
  {
    var from: nat := if id <= 0 then TAG_ID_MASK / 2 else id;
    MaskKeepsLow28(from + 1);
    SkipZero(from, And(from + 1, TAG_ID_MASK));
  }

  lemma SkipZero(id: int, low: nat)
    requires IsTagId(id) && low == (id + 1) % (TAG_ID_MASK + 1)
    ensures (if low == 0 then 1 else low) == Succ(id)
  {
  }

  /** The steps form one cycle over all ids from 1 to 2^28 - 1. */
  lemma {:induction false} IdsCycle(id: int, k: nat)
    requires IsTagId(id)
    ensures IdAfter(id, k) == (id - 1 + k) % TAG_ID_MASK + 1
  {
    if k > 0 {
      IdsCycle(id, k - 1);
    }
  }

  lemma {:induction false} IdsStayIds(id: int, k: nat)
    requires IsTagId(id)
    ensures IsTagId(IdAfter(id, k))
  {
    if k > 0 {
      IdsStayIds(id, k - 1);
    }
  }

  /** tag_id_inc, called by the search for a free id. */
  method NextTagId(id: int) returns (next: int)
    ensures IsTagId(id) ==> next == Succ(id)
  {
    if IsTagId(id) {
      IncStep(id);
    }
    next := TagIdInc(id);
  }

  /** The same id comes round again only after whole turns of the cycle. */
  lemma SameIdAfterTurns(id: int, j: nat, k: nat)
    requires IsTagId(id) && j < k && IdAfter(id, j) == IdAfter(id, k)
    ensures k - j >= TAG_ID_MASK && (k - j) % TAG_ID_MASK == 0
  {
    IdsCycle(id, j);
    IdsCycle(id, k);
  }

  /** The cycle does reach its last id, the one plc_tag_destroy refuses. */
  lemma LastIdComesUp()
    ensures IdAfter(FIRST_TAG_ID, TAG_ID_MASK - FIRST_TAG_ID) == TAG_ID_MASK
  {
    IdsCycle(FIRST_TAG_ID, TAG_ID_MASK - FIRST_TAG_ID);
  }

  /** memOk: whether the table finds memory for a new entry. */
  datatype Op<T> = Create(tag: T, memOk: bool) | Destroy(id: int)

  /** The tag table, as the map HashTable.Table implements, and the id counter. */
  class Registry<T> {
    var tags: map<int, T>
    var nextTagId: int
    ghost var steps: nat  // how far the counter has moved since the start

    ghost predicate Valid()
      reads this
    {
      nextTagId == IdAfter(FIRST_TAG_ID, steps)
    }

    constructor ()
      ensures Valid() && tags == map[] && nextTagId == FIRST_TAG_ID
    {
      tags := map[];
      nextTagId := FIRST_TAG_ID;
      steps := 0;
    }

    /** The search loop of add_tag_lookup: the first free id among the next fifty. */
    method FindFreeId() returns (newId: int, attempts: nat)
      requires Valid()
      ensures attempts <= MAX_TAG_MAP_ATTEMPTS
      ensures forall k :: steps < k <= steps + attempts ==> IdAfter(FIRST_TAG_ID, k) in tags
      ensures attempts < MAX_TAG_MAP_ATTEMPTS ==>
                newId > 0 && newId !in tags && newId == IdAfter(FIRST_TAG_ID, steps + attempts + 1)
      ensures attempts == MAX_TAG_MAP_ATTEMPTS ==> newId == IdAfter(FIRST_TAG_ID, steps + attempts)
    {
      newId, attempts := nextTagId, 0;
      while attempts < MAX_TAG_MAP_ATTEMPTS
        invariant attempts <= MAX_TAG_MAP_ATTEMPTS && newId == IdAfter(FIRST_TAG_ID, steps + attempts)
        invariant forall k :: steps < k <= steps + attempts ==> IdAfter(FIRST_TAG_ID, k) in tags
      {
        IdsStayIds(FIRST_TAG_ID, steps + attempts);
        newId := NextTagId(newId);
        if newId !in tags {
          return;
        }
        attempts := attempts + 1;
      }
    }

    /** add_tag_lookup: the tag enters the table under a free id, or nothing but the counter changes. */
    method AddTagLookup(tag: T, memOk: bool) returns (id: int)
      requires Valid()
      modifies this
      ensures Valid() && old(steps) < steps <= old(steps) + MAX_TAG_MAP_ATTEMPTS
      ensures forall k :: old(steps) < k < steps ==> IdAfter(FIRST_TAG_ID, k) in old(tags)
      ensures id > 0 ==> id == nextTagId && id !in old(tags) && tags == old(tags)[id := tag]
      ensures id <= 0 ==> id in {ERR_NO_RESOURCES, ERR_NO_MEM} && tags == old(tags)
      ensures id == ERR_NO_RESOURCES <==> steps == old(steps) + MAX_TAG_MAP_ATTEMPTS && nextTagId in old(tags)
      ensures id == ERR_NO_MEM <==> nextTagId !in old(tags) && !memOk
    {
      var newId, attempts := FindFreeId();
      var rc := ERR_NO_RESOURCES;
      if attempts < MAX_TAG_MAP_ATTEMPTS {
        rc := if memOk then STATUS_OK else ERR_NO_MEM;
        if memOk {
          tags := tags[newId := tag];
        }
      }
      steps := steps + (if attempts < MAX_TAG_MAP_ATTEMPTS then attempts + 1 else attempts);
      nextTagId := newId;
      id := if rc == STATUS_OK then newId else rc;
    }

    /** The id check and the table removal of plc_tag_destroy; the last id of the cycle is refused. */
    method Destroy(id: int) returns (rc: int)
      requires Valid()
      modifies this`tags
      ensures rc == if !(IsTagId(id) && id != TAG_ID_MASK) then ERR_NULL_PTR
                    else if id in old(tags) then STATUS_OK else ERR_NOT_FOUND
      ensures tags == if rc == STATUS_OK then old(tags) - {id} else old(tags)
    {
      if id <= 0 || id >= TAG_ID_MASK {
        return ERR_NULL_PTR;
      }
      if id !in tags {
        return ERR_NOT_FOUND;
      }
      tags := tags - {id};
      rc := STATUS_OK;
    }
  }

  /** The table after one operation with this result. */
  function Apply<T>(tags: map<int, T>, op: Op<T>, rc: int): map<int, T> {
    match op
    case Create(tag, _) => if rc > 0 then tags[rc := tag] else tags
    case Destroy(id) => if rc == STATUS_OK then tags - {id} else tags
  }

  function Replay<T>(tags: map<int, T>, ops: seq<Op<T>>, rcs: seq<int>): map<int, T>
    requires |rcs| <= |ops|
  {
    if rcs == [] then tags
    else
      var n := |rcs| - 1;
      Apply(Replay(tags, ops, rcs[..n]), ops[n], rcs[n])
  }

  /** No id names a live tag at the moment it is issued. */
  predicate FreeWhenIssued<T>(tags: map<int, T>, ops: seq<Op<T>>, rcs: seq<int>)
    requires |rcs| <= |ops|
  {
    rcs != [] ==>
      var n := |rcs| - 1;
      && FreeWhenIssued(tags, ops, rcs[..n])
      && (Issues(ops[n], rcs[n]) ==> rcs[n] !in Replay(tags, ops, rcs[..n]))
  }

  predicate Issues<T>(op: Op<T>, rc: int) {
    op.Create? && rc > 0
  }

  method Do<T>(r: Registry<T>, op: Op<T>) returns (rc: int)
    requires r.Valid()
    modifies r
    ensures r.Valid() && old(r.steps) <= r.steps && r.tags == Apply(old(r.tags), op, rc)
    ensures Issues(op, rc) ==> old(r.steps) < r.steps && rc == IdAfter(FIRST_TAG_ID, r.steps) && rc !in old(r.tags)
    ensures LastKept(old(r.tags), r.tags)
  {
    match op {
      case Create(tag, memOk) => rc := r.AddTagLookup(tag, memOk);
      case Destroy(id) => rc := r.Destroy(id);
    }
  }

  /** The id the counter shows at a position. */
  predicate StandsAt(id: int, position: nat) {
    id == IdAfter(FIRST_TAG_ID, position)
  }

  /** Where the counter stood after each operation: it has moved on for each id it issued. */
  ghost predicate Positions<T>(ops: seq<Op<T>>, rcs: seq<int>, at: seq<nat>) {
    && |at| == |rcs| <= |ops|
    && (forall i :: 0 <= i < |at| && Issues(ops[i], rcs[i]) ==> StandsAt(rcs[i], at[i]))
    && (forall i, j :: 0 <= i < j < |at| && Issues(ops[j], rcs[j]) ==> at[i] < at[j])
  }

  lemma NextPosition<T>(ops: seq<Op<T>>, rcs: seq<int>, at: seq<nat>, rc: int, before: nat, after: nat)
    requires Positions(ops, rcs, at) && |rcs| < |ops| && before <= after
               && forall i :: 0 <= i < |at| ==> at[i] <= before
    requires Issues(ops[|rcs|], rc) ==> before < after && StandsAt(rc, after)
    ensures Positions(ops, rcs + [rc], at + [after])
    ensures forall i :: 0 <= i < |at + [after]| ==> (at + [after])[i] <= after
  {
  }

  lemma ReplayStep<T>(tags: map<int, T>, ops: seq<Op<T>>, rcs: seq<int>, rc: int)
    requires |rcs| < |ops|
    ensures Replay(tags, ops, rcs + [rc]) == Apply(Replay(tags, ops, rcs), ops[|rcs|], rc)
    ensures FreeWhenIssued(tags, ops, rcs + [rc]) <==>
              FreeWhenIssued(tags, ops, rcs) && (Issues(ops[|rcs|], rc) ==> rc !in Replay(tags, ops, rcs))
  {
    assert (rcs + [rc])[..|rcs|] == rcs;
  }

  /** An id comes again only after a whole turn of the counter. */
  lemma NoReissue<T>(ops: seq<Op<T>>, rcs: seq<int>, at: seq<nat>, i: nat, j: nat)
    requires Positions(ops, rcs, at) && i < j < |at|
    requires Issues(ops[i], rcs[i]) && Issues(ops[j], rcs[j]) && rcs[i] == rcs[j]
    ensures at[j] - at[i] >= TAG_ID_MASK
  {
    SameIdAfterTurns(FIRST_TAG_ID, at[i], at[j]);
  }

  /** No id is issued twice within a turn of the counter. */
  ghost predicate TurnsApart<T>(ops: seq<Op<T>>, rcs: seq<int>, at: seq<nat>)
    requires |at| == |rcs| <= |ops|
  {
    forall i, j :: 0 <= i < j < |at| && Issues(ops[i], rcs[i]) && Issues(ops[j], rcs[j]) ==>
      (rcs[i] == rcs[j] ==> at[j] - at[i] >= TAG_ID_MASK)
  }

  lemma PositionsApart<T>(ops: seq<Op<T>>, rcs: seq<int>, at: seq<nat>)
    requires Positions(ops, rcs, at)
    ensures TurnsApart(ops, rcs, at)
  {
    forall i, j | 0 <= i < j < |at| && Issues(ops[i], rcs[i]) && Issues(ops[j], rcs[j])
      ensures rcs[i] == rcs[j] ==> at[j] - at[i] >= TAG_ID_MASK
    {
      if rcs[i] == rcs[j] {
        NoReissue(ops, rcs, at, i, j);
      }
    }
  }

  /** The tag under the last id, if there is one, is still there. */
  ghost predicate LastKept<T>(was: map<int, T>, tags: map<int, T>) {
    TAG_ID_MASK in was ==> TAG_ID_MASK in tags && tags[TAG_ID_MASK] == was[TAG_ID_MASK]
  }

  /** Over every run of creates and destroys: each id is free when it is issued, and it is not
      issued again until the counter has gone all the way round. */
  method Run<T>(r: Registry<T>, ops: seq<Op<T>>) returns (rcs: seq<int>, ghost at: seq<nat>)
    requires r.Valid()
    modifies r
    ensures r.Valid() && |rcs| == |ops| && r.tags == Replay(old(r.tags), ops, rcs)
    ensures FreeWhenIssued(old(r.tags), ops, rcs) && Positions(ops, rcs, at) && TurnsApart(ops, rcs, at)
    ensures LastKept(old(r.tags), r.tags)
  {
    rcs, at := [], [];
    for n := 0 to |ops|
      invariant r.Valid() && |rcs| == n && r.tags == Replay(old(r.tags), ops, rcs)
      invariant FreeWhenIssued(old(r.tags), ops, rcs) && Positions(ops, rcs, at)
      invariant forall i :: 0 <= i < n ==> at[i] <= r.steps
      invariant LastKept(old(r.tags), r.tags)
    {
      ghost var before := r.steps;
      var rc := Do(r, ops[n]);
      ReplayStep(old(r.tags), ops, rcs, rc);
      NextPosition(ops, rcs, at, rc, before, r.steps);
      rcs, at := rcs + [rc], at + [r.steps];
    }
    PositionsApart(ops, rcs, at);
  }

  /** When the counter comes to the last id and it is free, a creation gets it, plc_tag_destroy
      refuses it, and no run of creates and destroys ever removes the tag. */
  method LastIdStays<T>(r: Registry<T>, tag: T, ops: seq<Op<T>>) returns (id: int, rc: int)
    requires r.Valid() && r.steps == TAG_ID_MASK - FIRST_TAG_ID - 1 && TAG_ID_MASK !in r.tags
    modifies r
    ensures id == TAG_ID_MASK && rc == ERR_NULL_PTR && id in r.tags && r.tags[id] == tag
  {
    LastIdComesUp();
    id := r.AddTagLookup(tag, true);
    rc := r.Destroy(id);
    var rcs;
    ghost var at;
    rcs, at := Run(r, ops);
  }
}
