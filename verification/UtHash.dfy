/** The uthash table of the command line client: items on an application-order list and on
    bucket chains, with buckets doubled as chains grow. The invariant is what HASH_FSCK checks. */
module UtHash {
  import opened Bits
  import opened IntrusiveList

  const HASH_INITIAL_NUM_BUCKETS := 32
  const HASH_INITIAL_NUM_BUCKETS_LOG2 := 5
  const HASH_BKT_CAPACITY_THRESH := 10

  datatype Bucket = Bucket(head: Ptr, count: nat, expandMult: nat)

  const NO_ITEMS := Bucket(0, 0, 0)

  lemma {:induction false} AndBound(x: nat, y: nat)
    ensures And(x, y) <= y
  {
    if x > 0 && y > 0 {
      AndBound(x / 2, y / 2);
    }
  }

  /** HASH_TO_BKT */
  function Bkt(hashv: nat, n: nat): (b: nat)
    requires n > 0
    ensures b < n
  {
    AndBound(hashv, n - 1);
    And(hashv, n - 1)
  }

  /** With a power of two the mask is the remainder. */
  lemma BktIsRemainder(hashv: nat, k: nat)
    ensures Bkt(hashv, Pow2(k)) == hashv % Pow2(k)
  {
    AndMask(hashv, k);
  }

  ghost predicate ChainOk(hh: Links, hashv: map<Ptr, nat>, chains: seq<seq<Ptr>>, b: nat)
    requires b < |chains|
  {
    Linked(hh, chains[b]) && forall x :: x in chains[b] ==> x in hashv && Bkt(hashv[x], |chains|) == b
  }

  /** Every chain is linked and holds only items of its bucket. */
  ghost predicate ChainsOk(hh: Links, hashv: map<Ptr, nat>, chains: seq<seq<Ptr>>) {
    |chains| > 0 && forall b :: 0 <= b < |chains| ==> ChainOk(hh, hashv, chains, b)
  }

  predicate InChains(hashv: map<Ptr, nat>, chains: seq<seq<Ptr>>, x: Ptr)
    requires |chains| > 0
  {
    x in hashv && x in chains[Bkt(hashv[x], |chains|)]
  }

  function Total(chains: seq<seq<Ptr>>): nat {
    if chains == [] then 0 else Total(chains[..|chains| - 1]) + |chains[|chains| - 1]|
  }

  lemma {:induction false} TotalUpdate(chains: seq<seq<Ptr>>, b: nat, c: seq<Ptr>)
    requires b < |chains|
    ensures Total(chains[b := c]) == Total(chains) - |chains[b]| + |c|
  {
    var n := |chains| - 1;
    if b == n {
      assert chains[b := c][..n] == chains[..n];
    } else {
      TotalUpdate(chains[..n], b, c);
      assert chains[b := c][..n] == chains[..n][b := c];
    }
  }

  lemma NthInside(s: seq<Ptr>, i: int)
    ensures Nth(s, i) != 0 ==> Nth(s, i) in s
  {
  }

  lemma OtherChain(hh: Links, hashv: map<Ptr, nat>, chains: seq<seq<Ptr>>, b: nat, y: Ptr)
    requires ChainsOk(hh, hashv, chains) && b < |chains| && y in chains[b]
    ensures y in hashv && Bkt(hashv[y], |chains|) == b && y != 0
  {
    assert ChainOk(hh, hashv, chains, b);
    var i :| 0 <= i < |chains[b]| && chains[b][i] == y;
    assert At(hh, chains[b], i);
  }

  /** Pushing a new item onto its chain keeps all chains. */
  lemma PushChain(hh: Links, hashv: map<Ptr, nat>, chains: seq<seq<Ptr>>, x: Ptr)
    requires ChainsOk(hh, hashv, chains) && x != 0 && x in hashv && !InChains(hashv, chains, x)
    ensures var b := Bkt(hashv[x], |chains|);
            ChainsOk(Push(hh, First(chains[b]), x), hashv, chains[b := [x] + chains[b]])
  {
    var b := Bkt(hashv[x], |chains|);
    var hh', chains' := Push(hh, First(chains[b]), x), chains[b := [x] + chains[b]];
    forall c | 0 <= c < |chains'|
      ensures ChainOk(hh', hashv, chains', c)
    {
      assert ChainOk(hh, hashv, chains, c);
      if c == b {
        PushLinked(hh, chains[b], x);
      } else {
        forall y | y in chains[c]
          ensures SameOn(hh, hh', y)
        {
          OtherChain(hh, hashv, chains, c, y);
          if First(chains[b]) == y {
            OtherChain(hh, hashv, chains, b, y);
          }
          PushTouches(hh, First(chains[b]), x, y);
        }
        LinkedFrame(hh, hh', chains[c]);
      }
    }
  }

  /** Unlinking an item from its chain keeps all chains. */
  lemma UnlinkChain(hh: Links, hashv: map<Ptr, nat>, chains: seq<seq<Ptr>>, b: nat, k: nat)
    requires ChainsOk(hh, hashv, chains) && b < |chains| && k < |chains[b]|
    ensures Node(hh, chains[b][k])
    ensures ChainsOk(Unlink(hh, chains[b][k]), hashv, chains[b := Without(chains[b], k)])
  {
    assert ChainOk(hh, hashv, chains, b);
    UnlinkLinked(hh, chains[b], k);
    assert At(hh, chains[b], k);
    var hh', chains' := Unlink(hh, chains[b][k]), chains[b := Without(chains[b], k)];
    forall c | 0 <= c < |chains'|
      ensures ChainOk(hh', hashv, chains', c)
    {
      assert ChainOk(hh, hashv, chains, c);
      if c != b {
        forall y | y in chains[c]
          ensures SameOn(hh, hh', y)
        {
          OtherChain(hh, hashv, chains, c, y);
          assert y !in chains[b];
          NthInside(chains[b], k + 1);
          NthInside(chains[b], k - 1);
        }
        LinkedFrame(hh, hh', chains[c]);
      }
    }
  }

  /** Giving a hash value to an item outside the chains changes none of them. */
  lemma NewHashValue(hh: Links, hashv: map<Ptr, nat>, chains: seq<seq<Ptr>>, x: Ptr, hashv': map<Ptr, nat>)
    requires ChainsOk(hh, hashv, chains) && forall b :: 0 <= b < |chains| ==> x !in chains[b]
    requires x in hashv' && hashv' == hashv[x := hashv'[x]]
    ensures ChainsOk(hh, hashv', chains)
  {
    forall b | 0 <= b < |chains|
      ensures ChainOk(hh, hashv', chains, b)
    {
      assert ChainOk(hh, hashv, chains, b);
    }
  }

  /** The bucket records describe the chains. */
  predicate BucketsMatch(buckets: seq<Bucket>, chains: seq<seq<Ptr>>) {
    |buckets| == |chains| && forall b :: 0 <= b < |chains| ==>
        buckets[b].head == First(chains[b]) && buckets[b].count == |chains[b]|
  }

  /** Items beyond the ideal length of their chains. */
  function Excess(chains: seq<seq<Ptr>>, ideal: nat): nat {
    if chains == [] then 0
    else Excess(chains[..|chains| - 1], ideal) + Over(chains[|chains| - 1], ideal)
  }

  function Over(chain: seq<Ptr>, ideal: nat): nat {
    if |chain| > ideal then |chain| - ideal else 0
  }

  lemma {:induction false} ExcessUpdate(chains: seq<seq<Ptr>>, b: nat, c: seq<Ptr>, ideal: nat)
    requires b < |chains|
    ensures Excess(chains[b := c], ideal) == Excess(chains, ideal) - Over(chains[b], ideal) + Over(c, ideal)
  {
    var n := |chains| - 1;
    if b == n {
      assert chains[b := c][..n] == chains[..n];
    } else {
      ExcessUpdate(chains[..n], b, c, ideal);
      assert chains[b := c][..n] == chains[..n][b := c];
    }
  }

  /** The shift-and-mask formula for the ideal chain length. */
  function IdealLength(items: nat, k: nat): int {
    items / Pow2(k) + (if And(items, Pow2(k) - 1) != 0 then 1 else 0)
  }

  /** It is the quotient rounded up: the least length at which 2^k chains can hold the items. */
  lemma IdealIsCeiling(items: nat, k: nat)
    ensures IdealLength(items, k) == Ceiling(items, Pow2(k))
    ensures items <= IdealLength(items, k) * Pow2(k) < items + Pow2(k)
    ensures IdealLength(items, k) >= 0
  {
    AndMask(items, k);
    CeilingBounds(items, Pow2(k));
  }

  function Ceiling(x: nat, p: nat): int
    requires p > 0
  {
    x / p + (if x % p != 0 then 1 else 0)
  }

  lemma CeilingBounds(x: nat, p: nat)
    requires p > 0
    ensures x <= Ceiling(x, p) * p < x + p && Ceiling(x, p) >= 0
  {
  }

  /** Items of the first i chains and of the first j places of chain i. */
  ghost predicate Visited(hashv: map<Ptr, nat>, chains: seq<seq<Ptr>>, i: nat, j: nat, x: Ptr)
    requires |chains| > 0
  {
    && InChains(hashv, chains, x)
    && var b := Bkt(hashv[x], |chains|);
       b < i || (b == i && j <= |chains[b]| && x in chains[b][..j])
  }

  /** A doubling in progress: the new chains hold exactly the visited items, and the others can
      still be reached through their old next pointers. */
  ghost predicate Moving(hh: Links, was: Links, hashv: map<Ptr, nat>, chains: seq<seq<Ptr>>, news: seq<seq<Ptr>>,
                         i: nat, j: nat) {
    && |chains| > 0 && ChainsOk(hh, hashv, news)
    && (forall x :: InChains(hashv, news, x) <==> Visited(hashv, chains, i, j, x))
    && (forall x :: InChains(hashv, chains, x) && !Visited(hashv, chains, i, j, x) ==>
          x in hh.next && x in was.next && hh.next[x] == was.next[x])
  }

  lemma VisitNext(hashv: map<Ptr, nat>, chains: seq<seq<Ptr>>, i: nat, j: nat, y: Ptr)
    requires i < |chains| && j < |chains[i]| && chains[i][j] in hashv && Bkt(hashv[chains[i][j]], |chains|) == i
    ensures Visited(hashv, chains, i, j + 1, y) <==> Visited(hashv, chains, i, j, y) || y == chains[i][j]
  {
  }

  lemma VisitChainEnd(hashv: map<Ptr, nat>, chains: seq<seq<Ptr>>, i: nat, y: Ptr)
    requires i < |chains|
    ensures Visited(hashv, chains, i, |chains[i]|, y) <==> Visited(hashv, chains, i + 1, 0, y)
  {
  }

  lemma PushMember(hashv: map<Ptr, nat>, chains: seq<seq<Ptr>>, x: Ptr, y: Ptr)
    requires |chains| > 0 && x in hashv
    ensures var b := Bkt(hashv[x], |chains|);
            InChains(hashv, chains[b := [x] + chains[b]], y) <==> InChains(hashv, chains, y) || y == x
  {
  }

  /** Moving the next item of chain i onto its new chain. */
  lemma MoveOne(hh: Links, was: Links, hashv: map<Ptr, nat>, chains: seq<seq<Ptr>>, news: seq<seq<Ptr>>, i: nat, j: nat)
    requires Moving(hh, was, hashv, chains, news, i, j) && ChainsOk(was, hashv, chains)
    requires i < |chains| && j < |chains[i]|
    ensures var x := chains[i][j];
            && x != 0 && x in hashv && x in hh.next && hh.next[x] == Nth(chains[i], j + 1)
            && var b := Bkt(hashv[x], |news|);
               Moving(Push(hh, First(news[b]), x), was, hashv, chains, news[b := [x] + news[b]], i, j + 1)
  {
    var x := chains[i][j];
    OtherChain(was, hashv, chains, i, x);
    assert ChainOk(was, hashv, chains, i) && At(was, chains[i], j);
    assert x !in chains[i][..j];
    var b := Bkt(hashv[x], |news|);
    assert !Visited(hashv, chains, i, j, x);
    PushChain(hh, hashv, news, x);
    var hh', news' := Push(hh, First(news[b]), x), news[b := [x] + news[b]];
    forall y
      ensures InChains(hashv, news', y) <==> Visited(hashv, chains, i, j + 1, y)
    {
      PushMember(hashv, news, x, y);
      VisitNext(hashv, chains, i, j, y);
    }
    forall y | InChains(hashv, chains, y) && !Visited(hashv, chains, i, j + 1, y)
      ensures y in hh'.next && y in was.next && hh'.next[y] == was.next[y]
    {
      VisitNext(hashv, chains, i, j, y);
    }
  }

  method IdealFor(items: nat, k: nat) returns (r: nat)
    ensures r == Ceiling(items, Pow2(k))
  {
    IdealIsCeiling(items, k);
    r := IdealLength(items, k);
  }

  function NoChains(n: nat): (c: seq<seq<Ptr>>)
    ensures |c| == n && forall b :: 0 <= b < n ==> c[b] == []
  {
    seq(n, _ => [])
  }

  lemma {:induction false} NoChainsEmpty(n: nat, ideal: nat)
    ensures Total(NoChains(n)) == 0 && Excess(NoChains(n), ideal) == 0
  {
    if n > 0 {
      NoChainsEmpty(n - 1, ideal);
      assert NoChains(n)[..n - 1] == NoChains(n - 1);
    }
  }

  /** Counting in one bucket record while its chain grows by one. */
  function Counted(bkt: Bucket, x: Ptr, ideal: nat): Bucket {
    var count := bkt.count + 1;
    Bucket(x, count, if count > ideal && count > bkt.expandMult * ideal then bkt.expandMult + 1 else bkt.expandMult)
  }

  /** expand_mult of a chain of c items: counted up one item at a time. */
  function Multiplier(c: nat, ideal: nat): nat {
    if c == 0 then 0
    else
      var m := Multiplier(c - 1, ideal);
      if c > ideal && c > m * ideal then m + 1 else m
  }

  /** What the counting arrives at: zero within the ideal length, otherwise the least multiple of
      it that covers the chain, or one for each item too many if that is less. */
  lemma {:induction false} MultiplierCovers(c: nat, ideal: nat)
    requires ideal > 0
    ensures if c <= ideal then Multiplier(c, ideal) == 0 else Covers(Multiplier(c, ideal), c, ideal)
  {
    if c > 0 {
      MultiplierCovers(c - 1, ideal);
      CoverStep(c, ideal, Multiplier(c - 1, ideal), Multiplier(c, ideal));
    }
  }

  predicate Covers(m: nat, c: nat, ideal: nat) {
    0 < m <= c - ideal && (m - 1) * ideal < c && (m < c - ideal ==> c <= m * ideal)
  }

  lemma CoverStep(c: nat, ideal: nat, m: nat, m': nat)
    requires ideal > 0 && c > 0 && m' == if c > ideal && c > m * ideal then m + 1 else m
    requires if c - 1 <= ideal then m == 0 else Covers(m, c - 1, ideal)
    ensures if c <= ideal then m' == 0 else Covers(m', c, ideal)
  {
    assert (m + 1) * ideal == m * ideal + ideal;
    assert m > 0 ==> (m - 1) * ideal == m * ideal - ideal;
  }

  /** One more item would bring the chain to its threshold. */
  predicate TooLong(buckets: seq<Bucket>, chains: seq<seq<Ptr>>, b: nat) {
    b < |buckets| == |chains| && |chains[b]| + 1 >= (buckets[b].expandMult + 1) * HASH_BKT_CAPACITY_THRESH
  }

  ghost predicate MultsMatch(buckets: seq<Bucket>, chains: seq<seq<Ptr>>, ideal: nat) {
    |buckets| == |chains| && forall b :: 0 <= b < |chains| ==> buckets[b].expandMult == Multiplier(|chains[b]|, ideal)
  }

  lemma MultsStep(buckets: seq<Bucket>, chains: seq<seq<Ptr>>, ideal: nat, b: nat, x: Ptr)
    requires BucketsMatch(buckets, chains) && MultsMatch(buckets, chains, ideal) && b < |chains|
    ensures BucketsMatch(buckets[b := Counted(buckets[b], x, ideal)], chains[b := [x] + chains[b]])
    ensures MultsMatch(buckets[b := Counted(buckets[b], x, ideal)], chains[b := [x] + chains[b]], ideal)
  {
  }

  class Table<K(==)> {
    const hash: K -> nat
    var head: Ptr
    var tail: Ptr
    var app: Links             // hh.next, hh.prev
    var hh: Links              // hh.hh_next, hh.hh_prev
    var hashv: map<Ptr, nat>
    var keys: map<Ptr, K>
    var buckets: seq<Bucket>
    var log2: nat
    var numItems: nat
    var ideal: nat
    var nonideal: nat
    var ineffExpands: nat
    var noexpand: bool
    ghost var order: seq<Ptr>
    ghost var chains: seq<seq<Ptr>>

    /** Chain back-links, bucket counts and the item count. */
    ghost predicate Chained()
      reads this
    {
      && ChainsOk(hh, hashv, chains) && BucketsMatch(buckets, chains)
      && |chains| == Pow2(log2) && Total(chains) == numItems
    }

    /** What HASH_FSCK checks, plus that the two structures hold the same items. */
    ghost predicate Fsck()
      reads this
    {
      && Linked(app, order) && head == First(order)
      && (order != [] ==>
            && tail == Last(order) && numItems == |order| && Chained()
            && (forall x :: x in order <==> InChains(hashv, chains, x))
            && (forall x :: x in order ==> x in keys && hashv[x] == hash(keys[x])))
    }

    constructor (hash: K -> nat)
      ensures Fsck() && order == [] && this.hash == hash
    {
      this.hash := hash;
      head, tail, numItems, log2, ideal, nonideal, ineffExpands := 0, 0, 0, 0, 0, 0, 0;
      app, hh := Links(map[], map[]), Links(map[], map[]);
      hashv, keys, buckets, noexpand := map[], map[], [], false;
      order, chains := [], [];
    }

    /** The inner loop of HASH_EXPAND_BUCKETS: every item of chain i moves to its new chain. */
    method MoveChain(i: nat, newBuckets: seq<Bucket>, ghost was: Links, ghost news: seq<seq<Ptr>>)
      returns (nb: seq<Bucket>, ghost nc: seq<seq<Ptr>>)
      requires i < |chains| && |news| > 0 && BucketsMatch(buckets, chains) && BucketsMatch(newBuckets, news)
      requires ChainsOk(was, hashv, chains) && Moving(hh, was, hashv, chains, news, i, 0)
      requires nonideal == Excess(news, ideal) && MultsMatch(newBuckets, news, ideal)
      modifies this`hh, this`nonideal
      ensures |nc| == |news| && BucketsMatch(nb, nc) && nonideal == Excess(nc, ideal) && MultsMatch(nb, nc, ideal)
      ensures Moving(hh, was, hashv, chains, nc, i + 1, 0) && Total(nc) == Total(news) + |chains[i]|
    {
      nb, nc := newBuckets, news;
      var thh := buckets[i].head;
      ghost var j := 0;
      while thh != 0
        invariant 0 <= j <= |chains[i]| && thh == Nth(chains[i], j)
        invariant |nc| == |news| && BucketsMatch(nb, nc) && Moving(hh, was, hashv, chains, nc, i, j)
        invariant Total(nc) == Total(news) + j && nonideal == Excess(nc, ideal) && MultsMatch(nb, nc, ideal)
        decreases |chains[i]| - j
      {
        MoveOne(hh, was, hashv, chains, nc, i, j);
        var next := hh.next[thh];
        var b := Bkt(hashv[thh], |nb|);
        ghost var c := [thh] + nc[b];
        TotalUpdate(nc, b, c);
        ExcessUpdate(nc, b, c, ideal);
        MultsStep(nb, nc, ideal, b, thh);
        if nb[b].count + 1 > ideal {
          nonideal := nonideal + 1;
        }
        hh := Push(hh, nb[b].head, thh);
        nb := nb[b := Counted(nb[b], thh, ideal)];
        nc := nc[b := c];
        thh, j := next, j + 1;
      }
      ChainDone(was, nc, i, j);
    }

    lemma ChainDone(was: Links, nc: seq<seq<Ptr>>, i: nat, j: nat)
      requires i < |chains| && j <= |chains[i]| && Nth(chains[i], j) == 0
      requires ChainsOk(was, hashv, chains) && Moving(hh, was, hashv, chains, nc, i, j)
      ensures j == |chains[i]| && Moving(hh, was, hashv, chains, nc, i + 1, 0)
    {
      if j < |chains[i]| {
        OtherChain(was, hashv, chains, i, chains[i][j]);
      }
      forall y
        ensures Visited(hashv, chains, i, j, y) <==> Visited(hashv, chains, i + 1, 0, y)
      {
        VisitChainEnd(hashv, chains, i, y);
      }
    }

    /** The outer loop: all items move into twice as many chains. */
    method MoveAll() returns (nb: seq<Bucket>, ghost nc: seq<seq<Ptr>>)
      requires Chained() && nonideal == 0
      modifies this`hh, this`nonideal
      ensures |nc| == 2 * |chains| && BucketsMatch(nb, nc) && ChainsOk(hh, hashv, nc)
      ensures forall x :: InChains(hashv, nc, x) <==> InChains(hashv, chains, x)
      ensures Total(nc) == Total(chains) && nonideal == Excess(nc, ideal) && MultsMatch(nb, nc, ideal)
    {
      nb := seq(2 * |buckets|, _ => NO_ITEMS);
      nc := NoChains(2 * |buckets|);
      ghost var was := hh;
      NoChainsEmpty(|nc|, ideal);
      StartMoving(was, nc);
      var i := 0;
      while i < |buckets|
        invariant 0 <= i <= |buckets| && |nc| == 2 * |chains| && BucketsMatch(nb, nc)
        invariant Moving(hh, was, hashv, chains, nc, i, 0) && Total(nc) == Total(chains[..i])
        invariant nonideal == Excess(nc, ideal) && MultsMatch(nb, nc, ideal)
      {
        nb, nc := MoveChain(i, nb, was, nc);
        assert chains[..i + 1][..i] == chains[..i];
        i := i + 1;
      }
      assert chains[..i] == chains;
      assert forall x :: InChains(hashv, chains, x) ==> Visited(hashv, chains, i, 0, x);
    }

    /** HASH_EXPAND_BUCKETS: twice the buckets, the same items, and exact statistics. */
    method ExpandBuckets()
      requires Chained()
      modifies this`hh, this`buckets, this`log2, this`ideal, this`nonideal, this`ineffExpands, this`noexpand,
                 this`chains
      ensures Chained() && log2 == old(log2) + 1
      ensures forall x :: InChains(hashv, chains, x) <==> InChains(hashv, old(chains), x)
      ensures ideal == Ceiling(numItems, |chains|) && nonideal == Excess(chains, ideal)
                && MultsMatch(buckets, chains, ideal)
      ensures ineffExpands == if nonideal > numItems / 2 then old(ineffExpands) + 1 else 0
      ensures noexpand == (old(noexpand) || ineffExpands > 1)
    {
      ideal := IdealFor(numItems, log2 + 1);
      nonideal := 0;
      var nb;
      ghost var nc;
      nb, nc := MoveAll();
      Install(nb, nc);
      RateExpansion();
    }

    method Install(nb: seq<Bucket>, ghost nc: seq<seq<Ptr>>)
      requires |nc| == 2 * |chains| && BucketsMatch(nb, nc) && ChainsOk(hh, hashv, nc)
      requires |chains| == Pow2(log2) && Total(nc) == numItems
      modifies this`buckets, this`log2, this`chains
      ensures Chained() && log2 == old(log2) + 1 && chains == nc && buckets == nb
    {
      buckets := nb;
      log2 := log2 + 1;
      chains := nc;
    }

    /** Two expansions in a row that leave most items in long chains switch expansion off. */
    method RateExpansion()
      modifies this`ineffExpands, this`noexpand
      ensures ineffExpands == if nonideal > numItems / 2 then old(ineffExpands) + 1 else 0
      ensures noexpand == (old(noexpand) || ineffExpands > 1)
    {
      ineffExpands := if nonideal > numItems / 2 then ineffExpands + 1 else 0;
      if ineffExpands > 1 {
        noexpand := true;
      }
    }

    lemma StartMoving(was: Links, nc: seq<seq<Ptr>>)
      requires Chained() && was == hh && |nc| > 0 && forall b :: 0 <= b < |nc| ==> nc[b] == []
      ensures Moving(hh, was, hashv, chains, nc, 0, 0)
    {
      forall b | 0 <= b < |nc|
        ensures ChainOk(hh, hashv, nc, b)
      {
      }
      forall x | InChains(hashv, chains, x)
        ensures x in hh.next
      {
        var b := Bkt(hashv[x], |chains|);
        assert ChainOk(hh, hashv, chains, b);
        var k :| 0 <= k < |chains[b]| && chains[b][k] == x;
        assert At(hh, chains[b], k);
      }
    }

    /** HASH_ADD_TO_TABLE: the item is counted, pushed onto its chain, and a chain that has become
        too long doubles the buckets. */
    method AddToTable(x: Ptr)
      requires Chained() && x != 0 && x in hashv && !InChains(hashv, chains, x)
      modifies this`numItems, this`hh, this`buckets, this`log2, this`ideal, this`nonideal, this`ineffExpands,
               this`noexpand, this`chains
      ensures Chained() && numItems == old(numItems) + 1
      ensures var full := TooLong(old(buckets), old(chains), Bkt(hashv[x], |old(chains)|));
              log2 == old(log2) + (if full && !old(noexpand) then 1 else 0)
      ensures forall y :: InChains(hashv, chains, y) <==> InChains(hashv, old(chains), y) || y == x
      ensures log2 > old(log2) ==> ideal == Ceiling(numItems, |chains|) && nonideal == Excess(chains, ideal)
    {
      numItems := numItems + 1;
      var b := Bkt(hashv[x], |buckets|);
      PushOnto(x, b);
      assert buckets[b].expandMult == old(buckets)[b].expandMult && buckets[b].count == |old(chains)[b]| + 1;
      if buckets[b].count >= (buckets[b].expandMult + 1) * HASH_BKT_CAPACITY_THRESH && !noexpand {
        ExpandBuckets();
      }
    }

    method PushOnto(x: Ptr, b: nat)
      requires ChainsOk(hh, hashv, chains) && BucketsMatch(buckets, chains) && |chains| == Pow2(log2)
      requires Total(chains) + 1 == numItems
      requires x != 0 && x in hashv && !InChains(hashv, chains, x) && b == Bkt(hashv[x], |chains|)
      modifies this`hh, this`buckets, this`chains
      ensures Chained() && chains == old(chains)[b := [x] + old(chains)[b]]
      ensures buckets[b].expandMult == old(buckets)[b].expandMult
      ensures forall y :: InChains(hashv, chains, y) <==> InChains(hashv, old(chains), y) || y == x
    {
      PushChain(hh, hashv, chains, x);
      TotalUpdate(chains, b, [x] + chains[b]);
      forall y
        ensures InChains(hashv, chains[b := [x] + chains[b]], y) <==> InChains(hashv, chains, y) || y == x
      {
        PushMember(hashv, chains, x, y);
      }
      hh := Push(hh, buckets[b].head, x);
      buckets := buckets[b := buckets[b].(head := x, count := buckets[b].count + 1)];
      chains := chains[b := [x] + chains[b]];
    }

    /** HASH_MAKE_TABLE for the first item. */
    method MakeTable()
      modifies this`numItems, this`buckets, this`log2, this`ideal, this`nonideal, this`ineffExpands, this`noexpand,
                 this`chains
      ensures Chained() && numItems == 0 && forall y :: !InChains(hashv, chains, y)
    {
      numItems, ideal, nonideal, ineffExpands, noexpand := 0, 0, 0, 0, false;
      log2 := HASH_INITIAL_NUM_BUCKETS_LOG2;
      buckets := seq(HASH_INITIAL_NUM_BUCKETS, _ => NO_ITEMS);
      chains := NoChains(HASH_INITIAL_NUM_BUCKETS);
      NoChainsEmpty(HASH_INITIAL_NUM_BUCKETS, 0);
      assert Pow2(5) == 32;
      forall b | 0 <= b < |chains|
        ensures ChainOk(hh, hashv, chains, b)
      {
      }
    }

    lemma OutsideChains(x: Ptr)
      requires Fsck() && order != [] && x !in order
      ensures forall b :: 0 <= b < |chains| ==> x !in chains[b]
    {
      forall b | 0 <= b < |chains|
        ensures x !in chains[b]
      {
        if x in chains[b] {
          OtherChain(hh, hashv, chains, b, x);
        }
      }
    }

    /** HASH_ADD_KEYPTR_BYHASHVALUE: the item goes to the end of the application order. */
    method Add(x: Ptr, key: K)
      requires Fsck() && x != 0 && x !in order
      modifies this
      ensures Fsck() && order == old(order) + [x] && keys == old(keys)[x := key]
      ensures old(order) != [] && log2 > old(log2) ==>
                ideal == Ceiling(numItems, |chains|) && nonideal == Excess(chains, ideal)
    {
      EmptyOrder();
      if head == 0 {
        AddFirst(x, key);
      } else {
        AddMore(x, key);
      }
    }

    /** On the application list, not yet in a chain. */
    ghost predicate Unchained(x: Ptr)
      reads this
    {
      && Linked(app, order) && head == First(order) && tail == Last(order) == x && x != 0
      && Chained() && numItems + 1 == |order| && !InChains(hashv, chains, x)
      && (forall y :: y in order <==> InChains(hashv, chains, y) || y == x)
      && (forall y :: y in order ==> y in keys && y in hashv && hashv[y] == hash(keys[y]))
    }

    method Chain(x: Ptr)
      requires Unchained(x)
      modifies this`numItems, this`hh, this`buckets, this`log2, this`ideal, this`nonideal, this`ineffExpands,
               this`noexpand, this`chains
      ensures Fsck()
      ensures log2 > old(log2) ==> ideal == Ceiling(numItems, |chains|) && nonideal == Excess(chains, ideal)
    {
      AddToTable(x);
    }

    method AddFirst(x: Ptr, key: K)
      requires Fsck() && order == [] && x != 0
      modifies this
      ensures Fsck() && order == [x] && keys == old(keys)[x := key]
    {
      StartList(x, key);
      MakeTable();
      Chain(x);
    }

    method StartList(x: Ptr, key: K)
      requires Linked(app, []) && x != 0
      modifies this`app, this`head, this`tail, this`order, this`hashv, this`keys
      ensures Linked(app, order) && head == tail == x && order == [x]
      ensures keys == old(keys)[x := key] && hashv == old(hashv)[x := hash(key)]
    {
      AppendLinked(app, [], x);
      app := Append(app, 0, x);
      hashv, keys := hashv[x := hash(key)], keys[x := key];
      head, tail := x, x;
      order := [x];
      assert [] + [x] == [x];
    }

    method AddMore(x: Ptr, key: K)
      requires Fsck() && order != [] && x != 0 && x !in order
      modifies this
      ensures Fsck() && order == old(order) + [x] && keys == old(keys)[x := key]
      ensures log2 > old(log2) ==> ideal == Ceiling(numItems, |chains|) && nonideal == Excess(chains, ideal)
    {
      SetKey(x, key);
      LinkLast(x);
      Chain(x);
    }

    /** HASH_APPEND_LIST */
    method LinkLast(x: Ptr)
      requires Fsck() && order != [] && x != 0 && x !in order && x in hashv && x in keys && hashv[x] == hash(keys[x])
      modifies this`app, this`tail, this`order
      ensures Unchained(x) && order == old(order) + [x]
    {
      AppendLinked(app, order, x);
      app := Append(app, tail, x);
      tail := x;
      order := order + [x];
    }

    /** An item outside the table gets its key and hash value. */
    method SetKey(x: Ptr, key: K)
      requires Fsck() && order != [] && x !in order
      modifies this`hashv, this`keys
      ensures Fsck() && keys == old(keys)[x := key] && x in hashv && hashv[x] == hash(key)
    {
      OutsideChains(x);
      NewHashValue(hh, hashv, chains, x, hashv[x := hash(key)]);
      hashv, keys := hashv[x := hash(key)], keys[x := key];
    }

    lemma EmptyOrder()
      requires Fsck()
      ensures head == 0 <==> order == []
    {
      if order != [] {
        assert At(app, order, 0);
      }
    }

    /** The last step of a sort: the same items, relinked in another order. */
    method Relink(l: Links, first: Ptr, last: Ptr, ghost r: seq<Ptr>)
      requires Fsck() && order != [] && Linked(l, r) && first == First(r) && last == Last(r)
      requires |r| == |order| && forall x :: x in r <==> x in order
      modifies `app, `head, `tail, `order
      ensures Fsck() && order == r
    {
      assert Chained();
      app, head, tail := l, first, last;
      order := r;
      assert Chained();
    }

    ghost predicate DistinctKeys()
      reads this
    {
      forall x, y :: x in order && y in order && x in keys && y in keys && keys[x] == keys[y] ==> x == y
    }

    /** HASH_FIND: an item with the key if there is one; the only one when keys are distinct. */
    method Find(key: K) returns (out: Ptr)
      requires Fsck()
      ensures out != 0 ==> out in order && keys[out] == key
      ensures out == 0 ==> forall x :: x in order ==> keys[x] != key
      ensures DistinctKeys() ==> forall x :: x in order && keys[x] == key ==> out == x
    {
      EmptyOrder();
      if head == 0 {
        return 0;
      }
      var b := Bkt(hash(key), |buckets|);
      out := buckets[b].head;
      assert ChainOk(hh, hashv, chains, b);
      ghost var c, j := chains[b], 0;
      while out != 0
        invariant 0 <= j <= |c| && out == Nth(c, j)
        invariant forall i :: 0 <= i < j ==> c[i] in order && keys[c[i]] != key
        decreases |c| - j
      {
        assert At(hh, c, j) && InChains(hashv, chains, out);
        if hashv[out] == hash(key) && keys[out] == key {
          return;
        }
        out := hh.next[out];
        j := j + 1;
      }
      assert j < |c| ==> At(hh, c, j);
      forall x | x in order
        ensures keys[x] != key
      {
        assert hashv[x] == hash(key) ==> x in c;
      }
    }

    /** HASH_DELETE: the item leaves both structures; the last one takes the table with it. */
    method Delete(x: Ptr) returns (ghost k: nat)
      requires Fsck() && x in order
      modifies this
      ensures Fsck() && k < |old(order)| && old(order)[k] == x && order == Without(old(order), k)
      ensures keys == old(keys)
    {
      k :| 0 <= k < |order| && order[k] == x;
      EndsAreNull(k);
      if app.prev[x] == 0 && app.next[x] == 0 {
        head, order := 0, [];
      } else {
        UnlinkFromBucket(x);
        UnlinkFromOrder(x, k);
      }
    }

    /** A NULL pointer marks exactly the ends of the application order. */
    lemma EndsAreNull(k: nat)
      requires Linked(app, order) && k < |order|
      ensures Node(app, order[k])
      ensures app.prev[order[k]] == 0 <==> k == 0
      ensures app.next[order[k]] == 0 <==> k == |order| - 1
    {
      assert At(app, order, k);
      if k > 0 {
        assert At(app, order, k - 1);
      }
      if k + 1 < |order| {
        assert At(app, order, k + 1);
      }
    }

    /** HASH_DEL_IN_BKT */
    method UnlinkFromBucket(x: Ptr)
      requires Chained() && InChains(hashv, chains, x)
      modifies this`hh, this`buckets, this`chains, this`numItems
      ensures Chained() && numItems == old(numItems) - 1
      ensures forall y :: InChains(hashv, chains, y) <==> InChains(hashv, old(chains), y) && y != x
    {
      var b := Bkt(hashv[x], |buckets|);
      ghost var m :| 0 <= m < |chains[b]| && chains[b][m] == x;
      ghost var c := Without(chains[b], m);
      assert ChainOk(hh, hashv, chains, b) && At(hh, chains[b], m);
      UnlinkChain(hh, hashv, chains, b, m);
      TotalUpdate(chains, b, c);
      RemovedMember(hashv, chains, b, m);
      assert m > 0 ==> chains[b][0] != x;
      var first := if buckets[b].head == x then hh.next[x] else buckets[b].head;
      buckets := buckets[b := buckets[b].(head := first, count := buckets[b].count - 1)];
      hh := Unlink(hh, x);
      chains := chains[b := c];
      numItems := numItems - 1;
    }

    method UnlinkFromOrder(x: Ptr, ghost k: nat)
      requires Linked(app, order) && head == First(order) && tail == Last(order) && numItems == |order| - 1 && Chained()
      requires k < |order| && order[k] == x && |order| > 1
      requires forall y :: InChains(hashv, chains, y) <==> y in order && y != x
      requires forall y :: y in order ==> y in hashv && y in keys && hashv[y] == hash(keys[y])
      modifies this`app, this`head, this`tail, this`order
      ensures Fsck() && order == Without(old(order), k)
    {
      EndsAreNull(k);
      assert At(app, order, k);
      UnlinkLinked(app, order, k);
      WithoutEnds(order, k);
      if tail == x {
        tail := app.prev[x];
      }
      if app.prev[x] == 0 {
        head := app.next[x];
      }
      app := Unlink(app, x);
      order := Without(order, k);
    }
  }

  lemma WithoutEnds(s: seq<Ptr>, k: nat)
    requires Distinct(s) && k < |s|
    ensures First(Without(s, k)) == if k == 0 then Nth(s, 1) else s[0]
    ensures Last(Without(s, k)) == if k == |s| - 1 then Nth(s, k - 1) else s[|s| - 1]
    ensures s[|s| - 1] == s[k] <==> k == |s| - 1
    ensures forall y :: y in Without(s, k) <==> y in s && y != s[k]
  {
  }

  lemma RemovedMember(hashv: map<Ptr, nat>, chains: seq<seq<Ptr>>, b: nat, m: nat)
    requires b < |chains| && m < |chains[b]| && chains[b][m] in hashv && Bkt(hashv[chains[b][m]], |chains|) == b
    requires Distinct(chains[b])
    ensures forall y :: InChains(hashv, chains[b := Without(chains[b], m)], y) <==>
              InChains(hashv, chains, y) && y != chains[b][m]
  {
  }
}
