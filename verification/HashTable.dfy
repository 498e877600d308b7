/** The open-addressed table of tags: linear probing over ten slots, removal without
    tombstones, rehashing into larger arrays until everything fits. */
module HashTable {
  import opened Bits
  import opened Status

  const MAX_ITERATIONS := 10
  const MAX_INCREMENT := 10000

  /** A slot; NULL data marks a free one. */
  datatype Entry<T> = Entry(key: int, data: Option<T>)

  /** The slot tried at one iteration of a probe. */
  function Probe(h: nat, iteration: nat, n: nat): (index: nat)
    requires n > 0
    ensures index < n
  {
    (h % n + iteration) % n
  }

  predicate InWindow(h: nat, index: nat, n: nat)
    requires n > 0
  {
    exists i :: 0 <= i < MAX_ITERATIONS && Probe(h, i, n) == index
  }

  /** One of the slots a probe visits carries the key. */
  predicate WindowHas<T>(s: seq<Entry<T>>, h: nat, key: int)
    requires |s| > 0
  {
    exists i :: 0 <= i < MAX_ITERATIONS && s[Probe(h, i, |s|)].key == key
  }

  predicate Live<T>(s: seq<Entry<T>>, i: int) {
    0 <= i < |s| && s[i].data.Some?
  }

  ghost predicate Distinct<T>(s: seq<Entry<T>>) {
    forall i, j :: Live(s, i) && Live(s, j) && s[i].key == s[j].key ==> i == j
  }

  /** Free slots have key 0, live keys are non-zero, distinct and within reach of their hash. */
  ghost predicate WellPlaced<T>(s: seq<Entry<T>>, hash: int -> nat) {
    && |s| > 0
    && Distinct(s)
    && (forall i :: 0 <= i < |s| ==> (s[i].data.None? <==> s[i].key == 0))
    && (forall i :: Live(s, i) ==> InWindow(hash(s[i].key), i, |s|))
  }

  /** The map a table stands for. */
  ghost function Contents<T>(s: seq<Entry<T>>): (m: map<int, T>)
    requires Distinct(s)
    ensures forall i :: Live(s, i) ==> s[i].key in m && m[s[i].key] == s[i].data.value
    ensures forall k :: k in m ==> exists i :: Live(s, i) && s[i].key == k
  {
    map i | 0 <= i < |s| && Live(s, i) :: s[i].key := s[i].data.value
  }

  /** A non-zero key is mapped exactly when its probe window carries it, holes or not. */
  lemma FoundInWindow<T>(s: seq<Entry<T>>, hash: int -> nat, key: int)
    requires WellPlaced(s, hash)
    ensures key != 0 ==> (key in Contents(s) <==> WindowHas(s, hash(key), key))
    ensures 0 !in Contents(s)
  {
  }

  lemma SizeWithout<T>(m: map<int, T>, key: int)
    ensures |m - {key}| == if key in m then |m| - 1 else |m|
    ensures key !in m ==> m - {key} == m
  {
  }

  /** One of the slots a probe visits is free. */
  predicate WindowFree<T>(s: seq<Entry<T>>, h: nat)
    requires |s| > 0
  {
    exists i :: 0 <= i < MAX_ITERATIONS && s[Probe(h, i, |s|)].data.None?
  }

  lemma ProbesDiffer(h: nat, i: nat, j: nat, n: nat)
    requires i < j < n
    ensures Probe(h, i, n) != Probe(h, j, n)
  {
    Wrap(h % n + i, n);
    Wrap(h % n + j, n);
  }

  lemma Wrap(x: nat, n: nat)
    requires x < 2 * n
    ensures x % n == if x < n then x else x - n
  {
    ModUnique(x, n, if x < n then 0 else 1, if x < n then x else x - n);
  }

  lemma {:induction false} ProbedKeys<T>(s: seq<Entry<T>>, h: nat, k: nat)
    requires Distinct(s) && k <= |s| && |s| > 0 && forall i :: 0 <= i < k ==> Live(s, Probe(h, i, |s|))
    ensures |set i | 0 <= i < k :: s[Probe(h, i, |s|)].key| == k
  {
    var n := |s|;
    if k > 0 {
      ProbedKeys(s, h, k - 1);
      var last := s[Probe(h, k - 1, n)].key;
      forall i | 0 <= i < k - 1
        ensures s[Probe(h, i, n)].key != last
      {
        ProbesDiffer(h, i, k - 1, n);
      }
      assert (set i | 0 <= i < k :: s[Probe(h, i, n)].key)
          == (set i | 0 <= i < k - 1 :: s[Probe(h, i, n)].key) + {last};
    }
  }

  lemma SmallerSet(a: set<int>, b: set<int>)
    requires a <= b
    ensures |a| <= |b|
  {
    assert b == a + (b - a);
  }

  /** A table with fewer entries than slots and fewer than ten has room in every window. */
  lemma WindowRoom<T>(s: seq<Entry<T>>, hash: int -> nat, h: nat)
    requires WellPlaced(s, hash) && |Contents(s)| < |s| && |Contents(s)| < MAX_ITERATIONS
    ensures WindowFree(s, h)
  {
    if !WindowFree(s, h) {
      var k := if |s| < MAX_ITERATIONS then |s| else MAX_ITERATIONS;
      forall i | 0 <= i < k
        ensures Live(s, Probe(h, i, |s|))
      {
        assert s[Probe(h, i, |s|)].data.Some?;
      }
      ProbedKeys(s, h, k);
      SmallerSet(set i | 0 <= i < k :: s[Probe(h, i, |s|)].key, Contents(s).Keys);
    }
  }

  /** What a search for the key to remove has found. */
  lemma Removal<T>(s: seq<Entry<T>>, hash: int -> nat, key: int, index: int)
    requires WellPlaced(s, hash) && (index == ERR_NOT_FOUND <==> !WindowHas(s, hash(key), key))
    requires index == ERR_NOT_FOUND || (0 <= index < |s| && s[index].key == key)
    ensures index == ERR_NOT_FOUND ==> key !in Contents(s) && Contents(s) - {key} == Contents(s)
    ensures index != ERR_NOT_FOUND ==> s[index].data == Lookup(Contents(s), key)
    ensures |Contents(s) - {key}| == |Contents(s)| - (if index != ERR_NOT_FOUND && key != 0 then 1 else 0)
  {
    FoundInWindow(s, hash, key);
    SizeWithout(Contents(s), key);
    assert index != ERR_NOT_FOUND && key != 0 ==> Live(s, index);
  }

  /** Filling a free slot with a fresh key adds one mapping. */
  lemma ContentsAdd<T>(s: seq<Entry<T>>, hash: int -> nat, i: nat, key: int, data: T)
    requires WellPlaced(s, hash) && i < |s| && s[i].data.None? && key != 0 && key !in Contents(s)
    requires InWindow(hash(key), i, |s|)
    ensures WellPlaced(s[i := Entry(key, Some(data))], hash)
    ensures Contents(s[i := Entry(key, Some(data))]) == Contents(s)[key := data]
  {
    PlacedAdd(s, s[i := Entry(key, Some(data))], hash, i, key, data);
    MapAdd(s, s[i := Entry(key, Some(data))], i, key, data);
  }

  lemma PlacedAdd<T>(s: seq<Entry<T>>, s': seq<Entry<T>>, hash: int -> nat, i: nat, key: int, data: T)
    requires WellPlaced(s, hash) && i < |s| && s[i].data.None? && key != 0 && key !in Contents(s)
    requires InWindow(hash(key), i, |s|) && s' == s[i := Entry(key, Some(data))]
    ensures WellPlaced(s', hash)
  {
  }

  lemma MapAdd<T>(s: seq<Entry<T>>, s': seq<Entry<T>>, i: nat, key: int, data: T)
    requires Distinct(s) && i < |s| && s[i].data.None? && s' == s[i := Entry(key, Some(data))] && Distinct(s')
    ensures Contents(s') == Contents(s)[key := data]
  {
    assert forall j :: Live(s', j) && j != i ==> Live(s, j) && s'[j] == s[j];
    var m, m' := Contents(s), Contents(s');
    forall k | k in m
      ensures k in m' && m'[k] == m[k]
    {
      var j :| Live(s, j) && s[j].key == k;
      assert Live(s', j);
    }
    assert Live(s', i);
  }

  /** Clearing a slot removes its mapping only. */
  lemma ContentsRemove<T>(s: seq<Entry<T>>, s': seq<Entry<T>>, i: nat)
    requires Distinct(s) && i < |s| && s' == s[i := Entry(0, None)]
    requires forall j :: Live(s, j) ==> s[j].key != 0
    requires s[i].data.None? ==> s[i].key == 0
    ensures Distinct(s')
    ensures Contents(s') == Contents(s) - {s[i].key}
  {
    assert forall j :: Live(s', j) ==> Live(s, j) && j != i && s'[j] == s[j];
    var m, m' := Contents(s), Contents(s');
    forall k | k in m && k != s[i].key
      ensures k in m' && m'[k] == m[k]
    {
      var j :| Live(s, j) && s[j].key == k;
      assert Live(s', j);
    }
    forall k | k in m'
      ensures k in m && k != s[i].key
    {
      var j :| Live(s', j) && s'[j].key == k;
      assert Live(s, j);
    }
  }

  lemma PlacedRemove<T>(s: seq<Entry<T>>, s': seq<Entry<T>>, hash: int -> nat, i: nat)
    requires WellPlaced(s, hash) && i < |s| && s' == s[i := Entry(0, None)]
    ensures WellPlaced(s', hash)
  {
  }

  lemma DistinctPrefix<T>(s: seq<Entry<T>>, i: nat)
    requires Distinct(s) && i <= |s|
    ensures Distinct(s[..i])
  {
  }

  /** Extending the copied prefix by one slot. */
  lemma ContentsPrefix<T>(s: seq<Entry<T>>, i: nat)
    requires Distinct(s) && i < |s|
    ensures Distinct(s[..i]) && Distinct(s[..i + 1])
    ensures Live(s, i) ==> s[i].key !in Contents(s[..i])
    ensures Contents(s[..i + 1]) == if Live(s, i) then Contents(s[..i])[s[i].key := s[i].data.value]
              else Contents(s[..i])
  {
    DistinctPrefix(s, i);
    DistinctPrefix(s, i + 1);
    var p, q := s[..i], s[..i + 1];
    assert q == p + [s[i]];
    ContentsAppend(p, s[i]);
  }

  lemma ContentsAppend<T>(p: seq<Entry<T>>, e: Entry<T>)
    requires Distinct(p) && Distinct(p + [e])
    ensures e.data.Some? ==> e.key !in Contents(p)
    ensures Contents(p + [e]) == if e.data.Some? then Contents(p)[e.key := e.data.value] else Contents(p)
  {
    var q := p + [e];
    var m, m' := Contents(p), Contents(q);
    assert forall j :: Live(p, j) ==> Live(q, j) && q[j] == p[j];
    forall k | k in m'
      ensures k in m || (e.data.Some? && k == e.key)
    {
      var j :| Live(q, j) && q[j].key == k;
      assert j < |p| ==> Live(p, j);
    }
    assert e.data.Some? ==> Live(q, |p|) && q[|p|] == e;
  }

  function Lookup<T>(m: map<int, T>, k: int): Option<T> {
    if k in m then Some(m[k]) else None
  }

  /** The operations of a run. An insertion looks the key up first, as the library does. */
  datatype Op<T> = Get(key: int) | Insert(key: int, data: T) | Remove(key: int)

  /** The plain map after an operation; memory decides whether an insertion succeeds. */
  function Apply<T>(m: map<int, T>, op: Op<T>, rc: int): map<int, T> {
    match op
    case Get(_) => m
    case Insert(k, d) => if rc == STATUS_OK then m[k := d] else m
    case Remove(k) => m - {k}
  }

  function Replay<T>(m: map<int, T>, ops: seq<Op<T>>, rcs: seq<int>): map<int, T>
    requires |ops| == |rcs|
  {
    if ops == [] then m
    else Apply(Replay(m, ops[..|ops| - 1], rcs[..|ops| - 1]), ops[|ops| - 1], rcs[|ops| - 1])
  }

  /** What the plain map has under the key of each operation when its turn comes. */
  function Answers<T>(m: map<int, T>, ops: seq<Op<T>>, rcs: seq<int>): seq<Option<T>>
    requires |ops| == |rcs|
  {
    if ops == [] then []
    else
      var n := |ops| - 1;
      Answers(m, ops[..n], rcs[..n]) + [Lookup(Replay(m, ops[..n], rcs[..n]), ops[n].key)]
  }

  /** The result codes a run may give: an insertion of a key that is there is refused, and an
      insertion into a table that holds fewer than ten entries, and fewer than `slots`, succeeds. */
  predicate CodeOk<T>(m: map<int, T>, op: Op<T>, rc: int, slots: nat) {
    if !op.Insert? then rc == STATUS_OK
    else if op.key in m then rc == ERR_DUPLICATE
    else rc in {STATUS_OK, ERR_NO_MEM} && (|m| < MAX_ITERATIONS && |m| < slots ==> rc == STATUS_OK)
  }

  predicate CodesOk<T>(m: map<int, T>, ops: seq<Op<T>>, rcs: seq<int>, slots: nat)
    requires |ops| == |rcs|
  {
    ops != [] ==>
      var n := |ops| - 1;
      CodesOk(m, ops[..n], rcs[..n], slots) && CodeOk(Replay(m, ops[..n], rcs[..n]), ops[n], rcs[n], slots)
  }

  lemma ReplayStep<T>(m: map<int, T>, ops: seq<Op<T>>, rcs: seq<int>, rc: int, slots: nat)
    requires |rcs| < |ops|
    ensures Replay(m, ops[..|rcs| + 1], rcs + [rc]) == Apply(Replay(m, ops[..|rcs|], rcs), ops[|rcs|], rc)
    ensures Answers(m, ops[..|rcs| + 1], rcs + [rc])
         == Answers(m, ops[..|rcs|], rcs) + [Lookup(Replay(m, ops[..|rcs|], rcs), ops[|rcs|].key)]
    ensures CodesOk(m, ops[..|rcs| + 1], rcs + [rc], slots) <==>
              CodesOk(m, ops[..|rcs|], rcs, slots) && CodeOk(Replay(m, ops[..|rcs|], rcs), ops[|rcs|], rc, slots)
  {
    assert ops[..|rcs| + 1][..|rcs|] == ops[..|rcs|] && (rcs + [rc])[..|rcs|] == rcs;
  }

  /** The size after k attempts to grow: doubled each time, by 10000 slots at most. */
  function GrownSize(n: nat, k: nat): (r: nat)
    ensures n > 0 && k > 0 ==> r > n
    ensures k == 1 ==> r == if n < 10000 then 2 * n else n + 10000
  {
    if k == 0 then n
    else
      var m := GrownSize(n, k - 1);
      m + (if m < MAX_INCREMENT then m else MAX_INCREMENT)
  }

  class Table<T> {
    var entries: array<Entry<T>>
    var used: int
    const hash: int -> nat
    /** No allocation beyond this many entries succeeds. */
    const memory: nat
    ghost var refusals: nat  // how often an allocation was refused

    ghost predicate Valid()
      reads this, entries
    {
      WellPlaced(entries[..], hash) && used == |Contents(entries[..])|
    }

    ghost function Map(): map<int, T>
      reads this, entries
      requires Valid()
    {
      Contents(entries[..])
    }

    constructor (capacity: nat, hash: int -> nat, memory: nat)
      requires capacity > 0
      ensures Valid() && fresh(entries) && entries.Length == capacity && Map() == map[]
      ensures this.hash == hash && this.memory == memory && refusals == 0
    {
      refusals := 0;
      entries := new Entry<T>[capacity](_ => Entry(0, None));
      used := 0;
      this.hash := hash;
      this.memory := memory;
      new;
      assert Contents(entries[..]) == map[];
    }

    /** find_key: holes do not stop the search, so every live key is found. */
    method FindKey(key: int) returns (index: int)
      requires Valid()
      ensures index == ERR_NOT_FOUND || (0 <= index < entries.Length && entries[index].key == key)
      ensures key != 0 ==> (index == ERR_NOT_FOUND <==> key !in Map())
      ensures index != ERR_NOT_FOUND && key != 0 ==> Live(entries[..], index)
      ensures index == ERR_NOT_FOUND <==> !WindowHas(entries[..], hash(key), key)
    {
      FoundInWindow(entries[..], hash, key);
      var iteration := 0;
      while iteration < MAX_ITERATIONS
        invariant 0 <= iteration <= MAX_ITERATIONS
        invariant forall i :: 0 <= i < iteration ==> entries[Probe(hash(key), i, entries.Length)].key != key
      {
        index := Probe(hash(key), iteration, entries.Length);
        if entries[index].key == key {
          return;
        }
        iteration := iteration + 1;
      }
      index := ERR_NOT_FOUND;
    }

    /** find_empty on any array of slots, as expand_table also uses it on the new one. */
    static method FindEmpty(slots: array<Entry<T>>, h: nat) returns (index: int)
      requires slots.Length > 0
      ensures index != ERR_NOT_FOUND ==>
                0 <= index < slots.Length && slots[index].data.None? && InWindow(h, index, slots.Length)
      ensures index == ERR_NOT_FOUND <==> forall i :: 0 <= i < MAX_ITERATIONS ==>
                slots[Probe(h, i, slots.Length)].data.Some?
    {
      var iteration := 0;
      while iteration < MAX_ITERATIONS
        invariant 0 <= iteration <= MAX_ITERATIONS
        invariant forall i :: 0 <= i < iteration ==> slots[Probe(h, i, slots.Length)].data.Some?
      {
        index := Probe(h, iteration, slots.Length);
        if slots[index].data.None? {
          return;
        }
        iteration := iteration + 1;
      }
      index := ERR_NOT_FOUND;
    }

    /** hashtable_get, for every key: key 0 can only meet free slots. */
    method Get(key: int) returns (r: Option<T>)
      requires Valid()
      ensures r == Lookup(Map(), key)
    {
      var index := FindKey(key);
      if index == ERR_NOT_FOUND {
        return None;
      }
      r := entries[index].data;
      assert key == 0 ==> 0 !in Map();
    }

    /** hashtable_remove. For key 0 a free slot counts as found, which spoils the entry count
        and nothing else; this happens exactly when the window of key 0 has a free slot. */
    method Remove(key: int) returns (r: Option<T>)
      requires Valid()
      modifies this`used, entries
      ensures entries == old(entries) && WellPlaced(entries[..], hash)
      ensures r == Lookup(old(Map()), key)
      ensures Contents(entries[..]) == old(Map()) - {key}
      ensures used == |Contents(entries[..])| - (if key == 0 && WindowHas(old(entries[..]), hash(0), 0) then 1 else 0)
    {
      var index := FindKey(key);
      Removal(entries[..], hash, key, index);
      if index == ERR_NOT_FOUND {
        return None;
      }
      r := entries[index].data;
      ClearSlot(index);
    }

    method ClearSlot(index: nat)
      requires Valid() && index < entries.Length
      modifies this`used, entries
      ensures WellPlaced(entries[..], hash) && used == old(used) - 1
      ensures Contents(entries[..]) == old(Map()) - {old(entries[index].key)}
    {
      ghost var s := entries[..];
      entries[index] := Entry(0, None);
      used := used - 1;
      assert entries[..] == s[index := Entry(0, None)];
      ContentsRemove(s, entries[..], index);
      PlacedRemove(s, entries[..], hash, index);
    }

    /** mem_alloc of an entry array: may fail at any size, must fail beyond the limit. */
    method MemAlloc(n: nat) returns (ok: bool)
      modifies this`refusals
      ensures n > memory ==> !ok
      ensures refusals == old(refusals) + (if ok then 0 else 1)
    {
      ok := *;
      if n > memory {
        ok := false;
      }
      refusals := refusals + (if ok then 0 else 1);
    }

    /** All entries are in these slots too, and there are some. */
    ghost predicate Copied(slots: array<Entry<T>>, count: nat)
      reads this, entries, slots
    {
      && Valid() && WellPlaced(slots[..], hash) && Contents(slots[..]) == Map() && count == |Map()| && Map() != map[]
    }

    /** The copying loop of expand_table. It reports the slot of the last entry copied, so
        "not found" means that an entry did not fit or that there was none to copy. */
    method CopyEntries(slots: array<Entry<T>>) returns (index: int, count: nat)
      requires Valid() && slots != entries && slots.Length > 0
      requires forall i :: 0 <= i < slots.Length ==> slots[i] == Entry(0, None)
      modifies slots
      ensures index != ERR_NOT_FOUND ==> Copied(slots, count)
    {
      index, count := ERR_NOT_FOUND, 0;
      ghost var s := entries[..];
      assert Contents(slots[..]) == map[];
      var i := 0;
      while i < entries.Length
        invariant 0 <= i <= entries.Length && entries[..] == s
        invariant WellPlaced(slots[..], hash) && Distinct(s[..i])
        invariant Contents(slots[..]) == Contents(s[..i]) && count == |Contents(s[..i])|
        invariant index != ERR_NOT_FOUND ==> Contents(s[..i]) != map[]
      {
        ContentsPrefix(s, i);
        if entries[i].data.Some? {
          var e := entries[i];
          assert Live(s, i);
          index := FindEmpty(slots, hash(e.key));
          if index == ERR_NOT_FOUND {
            return;
          }
          ContentsAdd(slots[..], hash, index, e.key, e.data.value);
          ghost var before := slots[..];
          slots[index] := e;
          assert slots[..] == before[index := e];
          count := count + 1;
        }
        i := i + 1;
      }
      assert s[..i] == s;
    }

    method Rehash(total: nat) returns (slots: array<Entry<T>>, index: int, count: nat)
      requires Valid() && total > 0
      ensures fresh(slots) && slots.Length == total && (index != ERR_NOT_FOUND ==> Copied(slots, count))
    {
      slots := new Entry<T>[total](_ => Entry(0, None));
      index, count := CopyEntries(slots);
    }

    /** expand_table: the same map in a strictly larger table, or NO_MEM and nothing changed.
        An empty table never looks copied, so it runs into NO_MEM. */
    method Expand() returns (rc: int)
      requires Valid()
      modifies this`entries, this`used, this`refusals
      ensures Valid() && Map() == old(Map())
      ensures refusals == old(refusals) + (if rc == STATUS_OK then 0 else 1)
      ensures rc == STATUS_OK ==> exists k :: k > 0 && entries.Length == GrownSize(old(entries.Length), k)
      ensures rc == STATUS_OK ==> fresh(entries) && old(entries.Length) < entries.Length <= memory && Map() != map[]
      ensures rc != STATUS_OK ==> rc == ERR_NO_MEM && entries == old(entries) && used == old(used)
    {
      var slots, count;
      ghost var k;
      rc, slots, count, k := FindRoom();
      if rc == STATUS_OK {
        entries := slots;
        used := count;
      }
    }

    /** The loop of expand_table: larger and larger arrays until every entry finds a slot. */
    method FindRoom() returns (rc: int, slots: array<Entry<T>>, count: nat, ghost k: nat)
      requires Valid()
      modifies this`refusals
      ensures refusals == old(refusals) + (if rc == STATUS_OK then 0 else 1) && rc in {STATUS_OK, ERR_NO_MEM}
      ensures rc == STATUS_OK ==>
                && fresh(slots) && Copied(slots, count) && k > 0
                && entries.Length < slots.Length <= memory && slots.Length == GrownSize(entries.Length, k)
    {
      var total, index := entries.Length, ERR_NOT_FOUND;
      rc, slots, count, k := STATUS_OK, entries, 0, 0;
      while index == ERR_NOT_FOUND
        invariant refusals == old(refusals) && total == GrownSize(entries.Length, k) && total >= entries.Length
        invariant index != ERR_NOT_FOUND ==>
                    && fresh(slots) && slots.Length == total && entries.Length < total <= memory
                    && Copied(slots, count) && k > 0
        decreases index == ERR_NOT_FOUND, memory - total
      {
        total := total + (if total < MAX_INCREMENT then total else MAX_INCREMENT);
        k := k + 1;
        var ok := MemAlloc(total);
        if !ok {
          rc := ERR_NO_MEM;
          return;
        }
        slots, index, count := Rehash(total);
      }
    }

    /** hashtable_put of a key that is not in the table. */
    method Put(key: int, data: T) returns (rc: int)
      requires Valid() && key != 0 && key !in Map()
      modifies this`entries, this`used, this`refusals, entries
      ensures Valid() && rc in {STATUS_OK, ERR_NO_MEM}
      ensures rc == ERR_NO_MEM <==> refusals > old(refusals)
      ensures old(refusals) <= refusals
      ensures Map() == if rc == STATUS_OK then old(Map())[key := data] else old(Map())
      ensures WindowFree(old(entries[..]), hash(key)) ==> rc == STATUS_OK
      ensures (entries == old(entries) || fresh(entries)) && old(entries.Length) <= entries.Length
    {
      var index;
      rc, index := FindSlot(key);
      if rc == STATUS_OK {
        FillSlot(index, key, data);
      }
    }

    /** The loop of hashtable_put: the table grows until the key's window has an empty slot. */
    method FindSlot(key: int) returns (rc: int, index: int)
      requires Valid()
      modifies this`entries, this`used, this`refusals
      ensures Valid() && Map() == old(Map()) && rc in {STATUS_OK, ERR_NO_MEM}
      ensures refusals == old(refusals) + (if rc == STATUS_OK then 0 else 1)
      ensures rc == STATUS_OK ==> EmptyFor(key, index)
      ensures WindowFree(old(entries[..]), hash(key)) ==> rc == STATUS_OK
      ensures (entries == old(entries) || fresh(entries)) && old(entries.Length) <= entries.Length
    {
      index := FindEmpty(entries, hash(key));
      assert WindowFree(entries[..], hash(key)) <==> index != ERR_NOT_FOUND;
      rc := STATUS_OK;
      while index == ERR_NOT_FOUND
        invariant Valid() && Map() == old(Map()) && (entries == old(entries) || fresh(entries))
        invariant old(entries.Length) <= entries.Length && refusals == old(refusals) && rc == STATUS_OK
        invariant index != ERR_NOT_FOUND ==> EmptyFor(key, index)
        decreases index == ERR_NOT_FOUND, memory - entries.Length
      {
        rc := Expand();
        if rc != STATUS_OK {
          return;
        }
        index := FindEmpty(entries, hash(key));
      }
    }

    ghost predicate EmptyFor(key: int, index: int)
      reads this, entries
    {
      0 <= index < entries.Length && entries[index].data.None? && InWindow(hash(key), index, entries.Length)
    }

    method FillSlot(index: nat, key: int, data: T)
      requires Valid() && index < entries.Length && entries[index].data.None?
      requires key != 0 && key !in Map() && InWindow(hash(key), index, entries.Length)
      modifies this`used, entries
      ensures Valid() && Map() == old(Map())[key := data]
    {
      ContentsAdd(entries[..], hash, index, key, data);
      ghost var before := entries[..];
      entries[index] := Entry(key, Some(data));
      used := used + 1;
      assert entries[..] == before[index := Entry(key, Some(data))];
    }
  }

  /** One operation, with what it found under its key. */
  method Do<T>(t: Table<T>, op: Op<T>) returns (rc: int, r: Option<T>)
    requires t.Valid() && op.key != 0
    modifies t`entries, t`used, t`refusals, t.entries
    ensures t.Valid() && (t.entries == old(t.entries) || fresh(t.entries)) && old(t.entries.Length) <= t.entries.Length
    ensures t.Map() == Apply(old(t.Map()), op, rc) && r == Lookup(old(t.Map()), op.key)
    ensures CodeOk(old(t.Map()), op, rc, old(t.entries.Length))
    ensures rc == ERR_NO_MEM ==> t.refusals > old(t.refusals)
    ensures old(t.refusals) <= t.refusals
  {
    rc := STATUS_OK;
    match op {
      case Get(k) =>
        r := t.Get(k);
      case Remove(k) =>
        r := t.Remove(k);
      case Insert(k, d) =>
        r := t.Get(k);
        if r.None? {
          rc := DoPut(t, k, d);
        } else {
          rc := ERR_DUPLICATE;
        }
    }
  }

  method DoPut<T>(t: Table<T>, k: int, d: T) returns (rc: int)
    requires t.Valid() && k != 0 && k !in t.Map()
    modifies t`entries, t`used, t`refusals, t.entries
    ensures t.Valid() && (t.entries == old(t.entries) || fresh(t.entries)) && old(t.entries.Length) <= t.entries.Length
    ensures t.Map() == Apply(old(t.Map()), Insert(k, d), rc)
    ensures CodeOk(old(t.Map()), Insert(k, d), rc, old(t.entries.Length))
    ensures (rc == ERR_NO_MEM <==> t.refusals > old(t.refusals)) && old(t.refusals) <= t.refusals
  {
    if |t.Map()| < MAX_ITERATIONS && |t.Map()| < t.entries.Length {
      WindowRoom(t.entries[..], t.hash, t.hash(k));
    }
    rc := t.Put(k, d);
  }

  /** Over every run the table answers as the plain map does. */
  method Run<T>(t: Table<T>, ops: seq<Op<T>>) returns (rcs: seq<int>, found: seq<Option<T>>)
    requires t.Valid() && forall i :: 0 <= i < |ops| ==> ops[i].key != 0
    modifies t`entries, t`used, t`refusals, t.entries
    ensures t.Valid() && |rcs| == |ops|
    ensures t.Map() == Replay(old(t.Map()), ops, rcs) && found == Answers(old(t.Map()), ops, rcs)
    ensures CodesOk(old(t.Map()), ops, rcs, old(t.entries.Length))
    ensures t.refusals == old(t.refusals) ==> ERR_NO_MEM !in rcs
  {
    rcs, found := [], [];
    ghost var m, slots := t.Map(), t.entries.Length;
    for i := 0 to |ops|
      invariant t.Valid() && |rcs| == i && (t.entries == old(t.entries) || fresh(t.entries))
      invariant t.Map() == Replay(m, ops[..i], rcs) && found == Answers(m, ops[..i], rcs)
      invariant slots <= t.entries.Length && CodesOk(m, ops[..i], rcs, slots)
      invariant old(t.refusals) <= t.refusals && (t.refusals == old(t.refusals) ==> ERR_NO_MEM !in rcs)
    {
      var rc, r := Do(t, ops[i]);
      ReplayStep(m, ops, rcs, rc, slots);
      rcs, found := rcs + [rc], found + [r];
    }
    assert ops[..|ops|] == ops;
  }
}
