/** Whole runs of a uthash table used as a dictionary: every addition looks its key up first, so
    that keys stay distinct. */
module UtHashRuns {
  import opened IntrusiveList
  import opened UtHash

  /** Every item has a key, and no two have the same. */
  ghost predicate Keyed<K(!new)>(order: seq<Ptr>, keys: map<Ptr, K>) {
    && (forall x :: x in order ==> x in keys)
    && (forall x, y :: x in order && y in order && keys[x] == keys[y] ==> x == y)
  }

  /** The dictionary a table stands for. */
  ghost function Contents<K(!new)>(order: seq<Ptr>, keys: map<Ptr, K>): (m: map<K, Ptr>)
    requires Keyed(order, keys)
    ensures forall x :: x in order ==> keys[x] in m && m[keys[x]] == x
    ensures forall k :: k in m ==> m[k] in order && keys[m[k]] == k
  {
    map x | x in order :: keys[x] := x
  }

  lemma AddContents<K(!new)>(order: seq<Ptr>, keys: map<Ptr, K>, x: Ptr, key: K)
    requires Keyed(order, keys) && x !in order && key !in Contents(order, keys)
    ensures Keyed(order + [x], keys[x := key])
    ensures Contents(order + [x], keys[x := key]) == Contents(order, keys)[key := x]
  {
  }

  lemma DropContents<K(!new)>(order: seq<Ptr>, keys: map<Ptr, K>, i: nat)
    requires Keyed(order, keys) && Distinct(order) && i < |order|
    ensures Keyed(Without(order, i), keys)
    ensures Contents(Without(order, i), keys) == Contents(order, keys) - {keys[order[i]]}
  {
    WithoutEnds(order, i);
    var m, m' := Contents(order, keys), Contents(Without(order, i), keys);
    forall k | k in m && k != keys[order[i]]
      ensures k in m' && m'[k] == m[k]
    {
      assert m[k] in Without(order, i);
    }
    forall k | k in m'
      ensures k in m && k != keys[order[i]]
    {
      assert m'[k] in order && m'[k] != order[i];
    }
  }

  /** NULL when there is nothing under the key. */
  function Lookup<K>(m: map<K, Ptr>, key: K): Ptr {
    if key in m then m[key] else 0
  }

  datatype Op<K> = Look(key: K) | AddNew(key: K, item: Ptr) | Drop(key: K)

  function Apply<K>(m: map<K, Ptr>, op: Op<K>): map<K, Ptr> {
    match op
    case Look(_) => m
    case AddNew(key, x) => if key in m then m else m[key := x]
    case Drop(key) => m - {key}
  }

  function Replay<K>(m: map<K, Ptr>, ops: seq<Op<K>>): map<K, Ptr>
    decreases |ops|
  {
    if ops == [] then m else Replay(Apply(m, ops[0]), ops[1..])
  }

  /** What the plain dictionary has under the key of each operation when its turn comes. */
  function Answers<K>(m: map<K, Ptr>, ops: seq<Op<K>>): seq<Ptr>
    decreases |ops|
  {
    if ops == [] then [] else [Lookup(m, ops[0].key)] + Answers(Apply(m, ops[0]), ops[1..])
  }

  /** No handle is NULL or in the table already when it is added. */
  predicate Legal<K>(m: map<K, Ptr>, ops: seq<Op<K>>)
    decreases |ops|
  {
    ops != [] ==> LegalStep(m, ops[0]) && Legal(Apply(m, ops[0]), ops[1..])
  }

  predicate LegalStep<K>(m: map<K, Ptr>, op: Op<K>) {
    op.AddNew? ==> op.item != 0 && op.item !in m.Values
  }

  lemma ItemsAreValues<K(!new)>(order: seq<Ptr>, keys: map<Ptr, K>, x: Ptr)
    requires Keyed(order, keys)
    ensures x in order <==> x in Contents(order, keys).Values
  {
  }

  /** One operation, with what it found under its key. */
  method Do<K(==, !new)>(t: Table<K>, op: Op<K>) returns (r: Ptr)
    requires t.Fsck() && Keyed(t.order, t.keys) && LegalStep(Contents(t.order, t.keys), op)
    modifies t
    ensures t.Fsck() && Keyed(t.order, t.keys)
    ensures Contents(t.order, t.keys) == Apply(old(Contents(t.order, t.keys)), op)
    ensures r == Lookup(old(Contents(t.order, t.keys)), op.key)
  {
    r := t.Find(op.key);
    assert r == Lookup(Contents(t.order, t.keys), op.key);
    match op {
      case Look(_) =>
      case AddNew(key, x) =>
        if r == 0 {
          ItemsAreValues(t.order, t.keys, x);
          AddContents(t.order, t.keys, x, key);
          t.Add(x, key);
        }
      case Drop(_) =>
        if r != 0 {
          ghost var order, keys := t.order, t.keys;
          ghost var i := t.Delete(r);
          DropContents(order, keys, i);
        }
    }
  }

  /** Over every run the table answers as the plain dictionary does, and HASH_FSCK holds throughout. */
  method Run<K(==, !new)>(t: Table<K>, ops: seq<Op<K>>) returns (found: seq<Ptr>)
    requires t.Fsck() && Keyed(t.order, t.keys) && Legal(Contents(t.order, t.keys), ops)
    modifies t
    ensures t.Fsck() && Keyed(t.order, t.keys)
    ensures Contents(t.order, t.keys) == Replay(old(Contents(t.order, t.keys)), ops)
    ensures found == Answers(old(Contents(t.order, t.keys)), ops)
  {
    found := [];
    ghost var m := Contents(t.order, t.keys);
    ghost var now, rest := m, ops;
    assert [] + Answers(m, ops) == Answers(m, ops);
    for i := 0 to |ops|
      invariant t.Fsck() && Keyed(t.order, t.keys) && Contents(t.order, t.keys) == now
      invariant rest == ops[i..] && Legal(now, rest)
      invariant Replay(now, rest) == Replay(m, ops) && found + Answers(now, rest) == Answers(m, ops)
    {
      var r := Do(t, ops[i]);
      OneAnswer(now, rest, found);
      now, rest := Apply(now, ops[i]), rest[1..];
      found := found + [r];
    }
    assert found + [] == found;
  }

  lemma OneAnswer<K>(m: map<K, Ptr>, ops: seq<Op<K>>, found: seq<Ptr>)
    requires ops != []
    ensures found + Answers(m, ops) == found + [Lookup(m, ops[0].key)] + Answers(Apply(m, ops[0]), ops[1..])
  {
  }
}
