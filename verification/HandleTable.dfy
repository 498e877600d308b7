/** The generational handle table: packing of handles, the lowest-free-slot allocator with its
    search hint, and how long a destroyed handle stays dead. */
module HandleTable {
  import opened Bits

  const INITIAL_SLOTS := 256
  const GENERATIONS := 0x1_0000
  const HANDLE_INVALID := 0

  /** handle_index, handle_gen and handle_make on uint64_t. */
  function HandleIndex(h: nat): nat {
    h / GENERATIONS
  }

  function HandleGen(h: nat): nat {
    And(h, GENERATIONS - 1)
  }

  function HandleMake(index: nat, gen: nat): nat {
    Or(index * GENERATIONS % 0x1_0000_0000_0000_0000, And(gen, GENERATIONS - 1))
  }

  /** A handle as a number: 48 bits of index, 16 bits of generation. */
  function Pack(index: nat, gen: nat): nat {
    index * GENERATIONS + gen
  }

  lemma Gen16(x: nat)
    ensures And(x, GENERATIONS - 1) == x % GENERATIONS
  {
    assert Pow2(16) == GENERATIONS by {
      assert Pow2(8) == 0x100;
    }
    AndMask(x, 16);
  }

  lemma Or16(hi: nat, lo: nat)
    requires lo < GENERATIONS
    ensures Or(hi * GENERATIONS, lo) == hi * GENERATIONS + lo
  {
    assert Pow2(16) == GENERATIONS by {
      assert Pow2(8) == 0x100;
    }
    OrDisjoint(hi, lo, 16);
  }

  lemma PackParts(index: nat, gen: nat)
    requires gen < GENERATIONS
    ensures Pack(index, gen) / GENERATIONS == index && Pack(index, gen) % GENERATIONS == gen
  {
  }

  /** index << 16 keeps the low 48 bits of the index. */
  lemma ShiftedIndex(index: nat)
    ensures index * GENERATIONS % 0x1_0000_0000_0000_0000 == index % 0x1_0000_0000_0000 * GENERATIONS
  {
  }

  lemma MakeIsPack(index: nat, gen: nat)
    requires gen < GENERATIONS
    ensures HandleMake(index, gen) == Pack(index % 0x1_0000_0000_0000, gen)
  {
    MaskedGen(gen);
    ShiftedIndex(index);
    OrParts(index * GENERATIONS % 0x1_0000_0000_0000_0000, And(gen, GENERATIONS - 1), index % 0x1_0000_0000_0000, gen);
  }

  lemma MaskedGen(gen: nat)
    requires gen < GENERATIONS
    ensures And(gen, GENERATIONS - 1) == gen
  {
    Gen16(gen);
  }

  lemma OrParts(shifted: nat, masked: nat, index: nat, gen: nat)
    requires gen < GENERATIONS && shifted == index * GENERATIONS && masked == gen
    ensures Or(shifted, masked) == Pack(index, gen)
  {
    Or16(index, gen);
  }

  lemma HandleParts(h: nat, index: nat, gen: nat)
    requires gen < GENERATIONS && h == Pack(index, gen)
    ensures HandleIndex(h) == index && HandleGen(h) == gen
  {
    PackParts(index, gen);
    Gen16(h);
  }

  /** Shifting and masking pack both parts losslessly exactly while the index fits 48 bits. */
  lemma MakeRoundTrip(index: nat, gen: nat)
    requires gen < GENERATIONS
    ensures HandleMake(index, gen) == Pack(index % 0x1_0000_0000_0000, gen)
    ensures HandleIndex(HandleMake(index, gen)) == index <==> index < 0x1_0000_0000_0000
    ensures HandleGen(HandleMake(index, gen)) == gen
  {
    MakeIsPack(index, gen);
    HandleParts(HandleMake(index, gen), index % 0x1_0000_0000_0000, gen);
  }

  datatype Slot = Slot(handle: nat, used: bool, refcount: int, destroying: bool)

  const EMPTY := Slot(0, false, 0, false)

  datatype Result = Ok | NotFound | ObjectFreed

  function InUse(s: seq<Slot>): nat {
    if s == [] then 0 else InUse(s[..|s| - 1]) + (if s[|s| - 1].used then 1 else 0)
  }

  lemma {:induction false} InUseUpdate(s: seq<Slot>, i: nat, x: Slot)
    requires i < |s|
    ensures InUse(s[i := x]) == InUse(s) - (if s[i].used then 1 else 0) + (if x.used then 1 else 0)
  {
    var n := |s| - 1;
    if i == n {
      assert s[i := x][..n] == s[..n];
    } else {
      InUseUpdate(s[..n], i, x);
      assert s[i := x][..n] == s[..n][i := x];
    }
  }

  lemma {:induction false} InUseFull(s: seq<Slot>)
    ensures InUse(s) <= |s|
    ensures InUse(s) == |s| <==> forall i :: 0 <= i < |s| ==> s[i].used
  {
    if s != [] {
      InUseFull(s[..|s| - 1]);
      assert forall i :: 0 <= i < |s| - 1 ==> s[i] == s[..|s| - 1][i];
    }
  }

  function Empties(k: nat): (s: seq<Slot>)
    ensures |s| == k && forall i :: 0 <= i < k ==> s[i] == EMPTY
  {
    seq(k, _ => EMPTY)
  }

  lemma {:induction false} InUseGrown(s: seq<Slot>, k: nat)
    ensures InUse(s + Empties(k)) == InUse(s)
  {
    var t := s + Empties(k);
    if k == 0 {
      assert t == s;
    } else {
      InUseGrown(s, k - 1);
      assert t[..|t| - 1] == s + Empties(k - 1);
    }
  }

  /** Generations repeat after exactly 65536 destructions of a slot. */
  lemma SameHandleAfter(index: nat, d: nat, d': nat)
    requires d <= d'
    ensures Pack(index, d % GENERATIONS) == Pack(index, d' % GENERATIONS) <==> (d' - d) % GENERATIONS == 0
    ensures d < d' && Pack(index, d % GENERATIONS) == Pack(index, d' % GENERATIONS) ==> d' - d >= GENERATIONS
  {
  }

  lemma NextGeneration(d: nat)
    ensures (d % GENERATIONS + 1) % GENERATIONS == (d + 1) % GENERATIONS
  {
  }

  class Handles {
    var slots: array<Slot>      // length 0 stands for the NULL of the start
    var nextFree: nat
    var active: int
    ghost var destroys: seq<nat>  // how often the handle of each slot was destroyed

    ghost predicate Valid()
      reads this, slots
    {
      && |destroys| == slots.Length && nextFree <= slots.Length < 0x1_0000_0000_0000
      && (forall i :: 0 <= i < nextFree ==> slots[i].used)
      && (forall i :: 0 <= i < slots.Length ==>
          slots[i].handle == Pack(i, destroys[i] % GENERATIONS) || (slots[i] == EMPTY && destroys[i] == 0))
      && active == InUse(slots[..]) && (slots.Length == 0 || slots.Length >= INITIAL_SLOTS)
    }

    constructor ()
      ensures Valid() && fresh(slots) && slots.Length == 0 && active == 0
    {
      slots := new Slot[0](_ => EMPTY);
      nextFree, active, destroys := 0, 0, [];
    }

    /** The handle names a slot that carries it. */
    predicate Names(h: nat)
      reads this, slots
    {
      HandleIndex(h) < slots.Length && slots[HandleIndex(h)].used && slots[HandleIndex(h)].handle == h
    }

    /** Makes room for at least one more slot: 256 at first, doubling later. There is no memory for
        more slots than an index can name. */
    method Grow(memOk: bool) returns (ok: bool)
      requires Valid()
      modifies this`slots, this`destroys
      ensures Valid() && active == old(active)
      ensures ok == (memOk && old(slots.Length) < 0x8000_0000_0000)
      ensures !ok ==> slots == old(slots) && destroys == old(destroys)
      ensures ok ==> fresh(slots) && slots.Length == if old(slots.Length) == 0 then INITIAL_SLOTS
                else 2 * old(slots.Length)
      ensures ok ==> forall i :: 0 <= i < slots.Length ==>
                slots[i] == if i < old(slots.Length) then old(slots[i]) else EMPTY
      ensures ok ==> forall i :: 0 <= i < slots.Length ==>
                destroys[i] == if i < old(slots.Length) then old(destroys[i]) else 0
    {
      ok := memOk && slots.Length < 0x8000_0000_0000;
      if !ok {
        return;
      }
      var n := if slots.Length == 0 then INITIAL_SLOTS else 2 * slots.Length;
      ghost var s, k := slots[..], n - slots.Length;
      var bigger := Copied(n);
      InUseGrown(s, k);
      destroys := destroys + seq(k, _ => 0);
      slots := bigger;
      assert slots[..] == s + Empties(k);
    }

    method Copied(n: nat) returns (bigger: array<Slot>)
      requires slots.Length <= n
      ensures fresh(bigger) && bigger.Length == n && bigger[..] == slots[..] + Empties(n - slots.Length)
    {
      bigger := new Slot[n](_ => EMPTY);
      forall i | 0 <= i < slots.Length {
        bigger[i] := slots[i];
      }
    }

    /** The scan from the hint: since everything below the hint is in use, it finds the lowest free slot. */
    method LowestFree() returns (index: nat)
      requires Valid()
      ensures index <= slots.Length && (forall i :: 0 <= i < index ==> slots[i].used)
      ensures index < slots.Length ==> !slots[index].used
    {
      index := nextFree;
      while index < slots.Length && slots[index].used
        invariant nextFree <= index <= slots.Length && forall i :: 0 <= i < index ==> slots[i].used
      {
        index := index + 1;
      }
    }

    /** handle_alloc: the lowest free slot under its next generation. A failed allocation and the
        very first handle of slot 0 look the same to the caller. */
    method Alloc(headerOk: bool, memOk: bool) returns (h: nat, ok: bool, ghost index: nat)
      requires Valid()
      modifies this, slots
      ensures Valid() && (slots == old(slots) || fresh(slots))
      ensures !ok ==> h == HANDLE_INVALID && active == old(active) && destroys == old(destroys)
                      && slots == old(slots) && slots[..] == old(slots[..])
      ensures ok ==>
                && index < slots.Length && old(slots.Length) <= slots.Length && active == old(active) + 1
                && (forall i :: 0 <= i < index ==> i < old(slots.Length) && old(slots[i]).used)
                && (index < old(slots.Length) ==> !old(slots[index]).used)
                && h == Pack(index, destroys[index] % GENERATIONS) && slots[index] == Slot(h, true, 1, false)
                && (forall i :: 0 <= i < old(slots.Length) ==> destroys[i] == old(destroys[i]))
                && (forall i :: 0 <= i < old(slots.Length) && i != index ==> slots[i] == old(slots[i]))
                && (forall i :: old(slots.Length) <= i < slots.Length && i != index ==>
                    !slots[i].used && destroys[i] == 0)
                && (old(slots.Length) <= index ==> destroys[index] == 0)
      ensures ok <==> headerOk && (old(active) < old(slots.Length) || (memOk && old(slots.Length) < 0x8000_0000_0000))
      ensures ok ==> nextFree == index + 1
      ensures h == HANDLE_INVALID <==> !ok || (index == 0 && destroys[0] % GENERATIONS == 0)
    {
      h, ok, index := HANDLE_INVALID, false, 0;
      if !headerOk {
        return;
      }
      if slots.Length == 0 {
        ok := Grow(memOk);
        if !ok {
          return;
        }
      }
      var i := LowestFree();
      assert old(slots.Length) == 0 ==> !slots[0].used && i == 0;
      InUseFull(slots[..]);
      if i >= slots.Length {
        ok := Grow(memOk);
        if !ok {
          return;
        }
      }
      index, ok := i, true;
      h := Take(i);
    }

    method Take(index: nat) returns (h: nat)
      requires Valid() && index < slots.Length && !slots[index].used && forall i :: 0 <= i < index ==> slots[i].used
      modifies this`nextFree, this`active, slots
      ensures Valid() && h == Pack(index, destroys[index] % GENERATIONS)
      ensures active == old(active) + 1 && nextFree == index + 1
      ensures forall i :: 0 <= i < slots.Length ==>
                slots[i] == if i == index then Slot(h, true, 1, false) else old(slots[i])
    {
      GenerationOf(index);
      var gen := GenOf(slots[index].handle);
      h := MakeHandle(index, gen);
      InUseUpdate(slots[..], index, Slot(h, true, 1, false));
      ghost var s := slots[..];
      slots[index] := Slot(h, true, 1, false);
      assert slots[..] == s[index := Slot(h, true, 1, false)];
      nextFree := index + 1;
      active := active + 1;
    }

    /** Whatever a slot has been through, its stored handle carries its generation. */
    lemma GenerationOf(index: nat)
      requires Valid() && index < slots.Length
      ensures slots[index].handle % GENERATIONS == destroys[index] % GENERATIONS
    {
    }

    /** handle_acquire, as one atomic step. A destroyed handle is refused until its slot has been
        destroyed 65536 times since the handle was issued. */
    method Acquire(h: nat) returns (rc: Result)
      requires Valid()
      modifies slots
      ensures Valid() && forall x: nat :: Names(x) <==> old(Names(x))
      ensures rc == if !old(Names(h)) then NotFound
                    else if old(slots[HandleIndex(h)].destroying) then ObjectFreed else Ok
      ensures rc == Ok ==>
                var s := old(slots[HandleIndex(h)]);
                slots[HandleIndex(h)] == s.(refcount := s.refcount + 1)
      ensures forall i :: 0 <= i < slots.Length && !(rc == Ok && i == HandleIndex(h)) ==> slots[i] == old(slots[i])
      ensures rc != NotFound ==>
                forall d :: 0 <= d < destroys[HandleIndex(h)] && h == Pack(HandleIndex(h), d % GENERATIONS) ==>
                  destroys[HandleIndex(h)] - d >= GENERATIONS
    {
      var index := HandleIndex(h);
      if index >= slots.Length || !slots[index].used || slots[index].handle != h {
        return NotFound;
      }
      forall d | 0 <= d < destroys[index] && h == Pack(index, d % GENERATIONS)
        ensures destroys[index] - d >= GENERATIONS
      {
        SameHandleAfter(index, d, destroys[index]);
      }
      if slots[index].destroying {
        return ObjectFreed;
      }
      SetSlot(index, slots[index].(refcount := slots[index].refcount + 1));
      rc := Ok;
    }

    /** handle_release */
    method Release(h: nat)
      requires Valid()
      modifies slots
      ensures Valid() && forall x: nat :: Names(x) <==> old(Names(x))
      ensures forall i :: 0 <= i < slots.Length ==>
                slots[i] == if old(Names(h)) && i == HandleIndex(h)
                            then old(slots[i]).(refcount := old(slots[i].refcount) - 1) else old(slots[i])
    {
      var index := HandleIndex(h);
      if index >= slots.Length || !slots[index].used || slots[index].handle != h {
        return;
      }
      SetSlot(index, slots[index].(refcount := slots[index].refcount - 1));
    }

    /** The first part of handle_destroy: the handle is marked before its users are waited for. */
    method BeginDestroy(h: nat) returns (rc: Result)
      requires Valid()
      modifies slots
      ensures Valid() && forall x: nat :: Names(x) <==> old(Names(x))
      ensures rc == if old(Names(h)) then Ok else NotFound
      ensures forall i :: 0 <= i < slots.Length ==>
                slots[i] == if rc == Ok && i == HandleIndex(h) then old(slots[i]).(destroying := true)
                    else old(slots[i])
    {
      var index := HandleIndex(h);
      if index >= slots.Length || !slots[index].used || slots[index].handle != h {
        return NotFound;
      }
      SetSlot(index, slots[index].(destroying := true));
      rc := Ok;
    }

    /** The last part of handle_destroy, after the wait for other users is over or given up: the slot
        becomes free under its next generation and the hint moves down to it. */
    method FinishDestroy(h: nat)
      requires Valid() && Names(h)
      modifies this`nextFree, this`active, this`destroys, slots
      ensures Valid() && !Names(h) && active == old(active) - 1
      ensures destroys == old(destroys)[HandleIndex(h) := old(destroys)[HandleIndex(h)] + 1]
      ensures !slots[HandleIndex(h)].used
      ensures forall i :: 0 <= i < slots.Length && i != HandleIndex(h) ==> slots[i] == old(slots[i])
    {
      var index := HandleIndex(h);
      GenerationOf(index);
      var gen := GenOf(h);
      NextGeneration(destroys[index]);
      var next := MakeHandle(index, (gen + 1) % GENERATIONS);
      FreeSlot(index, next);
    }

    method FreeSlot(index: nat, next: nat)
      requires Valid() && index < slots.Length && slots[index].used
      requires next == Pack(index, (destroys[index] + 1) % GENERATIONS)
      modifies this`nextFree, this`active, this`destroys, slots
      ensures Valid() && active == old(active) - 1 && destroys == old(destroys)[index := old(destroys)[index] + 1]
      ensures forall i :: 0 <= i < slots.Length ==>
                slots[i] == if i == index then Slot(next, false, old(slots[i].refcount) - 1, true) else old(slots[i])
    {
      ghost var s := slots[..];
      var freed := Slot(next, false, slots[index].refcount - 1, true);
      InUseUpdate(s, index, freed);
      slots[index] := freed;
      assert slots[..] == s[index := freed];
      destroys := destroys[index := destroys[index] + 1];
      nextFree := if index < nextFree then index else nextFree;
      active := active - 1;
    }

    method SetSlot(index: nat, x: Slot)
      requires Valid() && index < slots.Length && slots[index].used && x.used && x.handle == slots[index].handle
      modifies slots
      ensures Valid() && forall h: nat :: Names(h) <==> old(Names(h))
      ensures forall i :: 0 <= i < slots.Length ==> slots[i] == if i == index then x else old(slots[i])
    {
      ghost var s := slots[..];
      InUseUpdate(s, index, x);
      slots[index] := x;
      assert slots[..] == s[index := x];
    }
  }

  /** handle_gen and handle_make, with the arithmetic they stand for. */
  method GenOf(h: nat) returns (gen: nat)
    ensures gen == h % GENERATIONS
  {
    Gen16(h);
    gen := HandleGen(h);
  }

  method MakeHandle(index: nat, gen: nat) returns (h: nat)
    requires index < 0x1_0000_0000_0000 && gen < GENERATIONS
    ensures h == Pack(index, gen)
  {
    MakeRoundTrip(index, gen);
    h := HandleMake(index, gen);
  }
}
