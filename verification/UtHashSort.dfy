/** HASH_SRT: the bottom-up merge sort that relinks the application order in place. */
module UtHashSort {
  import opened IntrusiveList
  import UtHash

  type Compare = (Ptr, Ptr) -> int

  predicate Comparable(cmp: Compare, x: Ptr, y: Ptr) {
    cmp(x, y) <= 0 || cmp(y, x) <= 0
  }

  predicate Transitive(cmp: Compare, x: Ptr, y: Ptr, z: Ptr) {
    cmp(x, y) <= 0 && cmp(y, z) <= 0 ==> cmp(x, z) <= 0
  }

  /** The comparison function orders every two items, transitively. */
  ghost predicate TotalPreorder(cmp: Compare) {
    (forall x, y :: Comparable(cmp, x, y)) && (forall x, y, z :: Transitive(cmp, x, y, z))
  }

  /** x must come before y: it is smaller, or equal and was before y in the original list. */
  ghost predicate Before(cmp: Compare, pos: map<Ptr, nat>, x: Ptr, y: Ptr) {
    cmp(x, y) <= 0 && (cmp(y, x) <= 0 ==> x in pos && y in pos && pos[x] < pos[y])
  }

  ghost predicate StablySorted(cmp: Compare, pos: map<Ptr, nat>, s: seq<Ptr>) {
    forall i, j :: 0 <= i < j < |s| ==> Before(cmp, pos, s[i], s[j])
  }

  /** All of p was before all of q in the original list. */
  ghost predicate AllEarlier(pos: map<Ptr, nat>, p: seq<Ptr>, q: seq<Ptr>) {
    forall x, y :: x in p && y in q ==> x in pos && y in pos && pos[x] < pos[y]
  }

  /** The merge of two runs: on a tie the left one goes first. */
  function Merge(cmp: Compare, p: seq<Ptr>, q: seq<Ptr>): seq<Ptr>
    decreases |p| + |q|
  {
    if p == [] then q
    else if q == [] then p
    else if cmp(p[0], q[0]) <= 0 then [p[0]] + Merge(cmp, p[1..], q)
    else [q[0]] + Merge(cmp, p, q[1..])
  }

  lemma MultisetHead(p: seq<Ptr>)
    requires p != []
    ensures multiset(p) == multiset{p[0]} + multiset(p[1..])
  {
    assert p == [p[0]] + p[1..];
  }

  lemma MultisetCons(x: Ptr, t: seq<Ptr>)
    ensures multiset([x] + t) == multiset{x} + multiset(t)
  {
  }

  /** A merge loses and invents nothing. */
  lemma {:induction false} MergeKeeps(cmp: Compare, p: seq<Ptr>, q: seq<Ptr>)
    ensures multiset(Merge(cmp, p, q)) == multiset(p) + multiset(q)
    decreases |p| + |q|
  {
    if p != [] && q != [] {
      if cmp(p[0], q[0]) <= 0 {
        MergeKeeps(cmp, p[1..], q);
        MultisetHead(p);
        MultisetCons(p[0], Merge(cmp, p[1..], q));
      } else {
        MergeKeeps(cmp, p, q[1..]);
        MultisetHead(q);
        MultisetCons(q[0], Merge(cmp, p, q[1..]));
      }
    }
  }

  lemma {:induction false} MergeLength(cmp: Compare, p: seq<Ptr>, q: seq<Ptr>)
    ensures |Merge(cmp, p, q)| == |p| + |q|
    decreases |p| + |q|
  {
    if p != [] && q != [] {
      MergeLength(cmp, p[1..], q);
      MergeLength(cmp, p, q[1..]);
    }
  }

  lemma MergeMembers(cmp: Compare, p: seq<Ptr>, q: seq<Ptr>, x: Ptr)
    ensures x in Merge(cmp, p, q) <==> x in p || x in q
  {
  }

  lemma BeforeAll(cmp: Compare, pos: map<Ptr, nat>, x: Ptr, s: seq<Ptr>)
    requires StablySorted(cmp, pos, s) && forall y :: y in s ==> Before(cmp, pos, x, y)
    ensures StablySorted(cmp, pos, [x] + s)
  {
  }

  lemma BeforeTransitive(cmp: Compare, pos: map<Ptr, nat>, x: Ptr, y: Ptr, z: Ptr)
    requires TotalPreorder(cmp) && Before(cmp, pos, x, y) && Before(cmp, pos, y, z)
    ensures Before(cmp, pos, x, z)
  {
    assert Transitive(cmp, x, y, z) && Transitive(cmp, z, x, y) && Transitive(cmp, y, z, x);
  }

  /** Merging two stably sorted runs, the left one earlier, gives a stably sorted run. */
  lemma {:induction false} MergeSorted(cmp: Compare, pos: map<Ptr, nat>, p: seq<Ptr>, q: seq<Ptr>)
    requires TotalPreorder(cmp) && StablySorted(cmp, pos, p) && StablySorted(cmp, pos, q) && AllEarlier(pos, p, q)
    ensures StablySorted(cmp, pos, Merge(cmp, p, q))
    decreases |p| + |q|
  {
    if p != [] && q != [] {
      HeadBefore(cmp, pos, p, q);
      if cmp(p[0], q[0]) <= 0 {
        SortedTail(cmp, pos, p);
        MergeSorted(cmp, pos, p[1..], q);
        BeforeAll(cmp, pos, p[0], Merge(cmp, p[1..], q));
      } else {
        SortedTail(cmp, pos, q);
        MergeSorted(cmp, pos, p, q[1..]);
        BeforeAll(cmp, pos, q[0], Merge(cmp, p, q[1..]));
      }
    }
  }

  lemma SortedTail(cmp: Compare, pos: map<Ptr, nat>, p: seq<Ptr>)
    requires StablySorted(cmp, pos, p) && p != []
    ensures StablySorted(cmp, pos, p[1..]) && forall x :: x in p[1..] ==> x in p
  {
  }

  lemma HeadBefore(cmp: Compare, pos: map<Ptr, nat>, p: seq<Ptr>, q: seq<Ptr>)
    requires TotalPreorder(cmp) && StablySorted(cmp, pos, p) && StablySorted(cmp, pos, q) && AllEarlier(pos, p, q)
    requires p != [] && q != []
    ensures cmp(p[0], q[0]) <= 0 ==> forall y :: y in Merge(cmp, p[1..], q) ==> Before(cmp, pos, p[0], y)
    ensures cmp(p[0], q[0]) > 0 ==> forall y :: y in Merge(cmp, p, q[1..]) ==> Before(cmp, pos, q[0], y)
  {
    assert p[0] in p && q[0] in q && Comparable(cmp, p[0], q[0]);
    if cmp(p[0], q[0]) <= 0 {
      assert Before(cmp, pos, p[0], q[0]);
      forall y | y in Merge(cmp, p[1..], q)
        ensures Before(cmp, pos, p[0], y)
      {
        MergeMembers(cmp, p[1..], q, y);
        HeadBeforeOne(cmp, pos, p, q, p[0], y);
      }
    } else {
      assert Before(cmp, pos, q[0], p[0]);
      forall y | y in Merge(cmp, p, q[1..])
        ensures Before(cmp, pos, q[0], y)
      {
        MergeMembers(cmp, p, q[1..], y);
        HeadBeforeOne(cmp, pos, p, q, q[0], y);
      }
    }
  }

  lemma HeadBeforeOne(cmp: Compare, pos: map<Ptr, nat>, p: seq<Ptr>, q: seq<Ptr>, x: Ptr, y: Ptr)
    requires TotalPreorder(cmp) && StablySorted(cmp, pos, p) && StablySorted(cmp, pos, q) && p != [] && q != []
    requires (x == p[0] && Before(cmp, pos, x, q[0]) && (y in p[1..] || y in q))
             || (x == q[0] && Before(cmp, pos, x, p[0]) && (y in p || y in q[1..]))
    ensures Before(cmp, pos, x, y)
  {
    if y in p && y != p[0] {
      var j :| 0 <= j < |p| && p[j] == y;
      assert Before(cmp, pos, p[0], p[j]);
    }
    if y in q && y != q[0] {
      var j :| 0 <= j < |q| && q[j] == y;
      assert Before(cmp, pos, q[0], q[j]);
    }
    if x == p[0] {
      if y in p[1..] {
        var j :| 0 <= j < |p[1..]| && p[1..][j] == y;
        assert Before(cmp, pos, p[0], p[j + 1]);
      } else if y != q[0] {
        BeforeTransitive(cmp, pos, x, q[0], y);
      }
    } else {
      if y in q[1..] {
        var j :| 0 <= j < |q[1..]| && q[1..][j] == y;
        assert Before(cmp, pos, q[0], q[j + 1]);
      } else if y != p[0] {
        BeforeTransitive(cmp, pos, x, p[0], y);
      }
    }
  }

  function Min(a: int, b: int): int {
    if a < b then a else b
  }

  /** The first k items, the next k, and what follows. */
  function Run1(s: seq<Ptr>, k: nat): seq<Ptr> {
    s[..Min(k, |s|)]
  }

  function Run2(s: seq<Ptr>, k: nat): seq<Ptr> {
    s[Min(k, |s|)..Min(2 * k, |s|)]
  }

  function After(s: seq<Ptr>, k: nat): seq<Ptr> {
    s[Min(k, |s|)..]
  }

  /** One pass: neighbouring runs of length k are merged. */
  function Pass(cmp: Compare, s: seq<Ptr>, k: nat): seq<Ptr>
    requires k > 0
    decreases |s|
  {
    if s == [] then [] else Merge(cmp, Run1(s, k), Run2(s, k)) + Pass(cmp, After(s, 2 * k), k)
  }

  /** a is a stably sorted arrangement of b. */
  ghost predicate Segment(cmp: Compare, pos: map<Ptr, nat>, a: seq<Ptr>, b: seq<Ptr>) {
    multiset(a) == multiset(b) && StablySorted(cmp, pos, a)
  }

  /** s is made of runs of length k, each sorting the same stretch of the original o. */
  ghost predicate Runs(cmp: Compare, pos: map<Ptr, nat>, s: seq<Ptr>, o: seq<Ptr>, k: nat)
    requires k > 0
    decreases |s|
  {
    && |s| == |o|
    && (s != [] ==> Segment(cmp, pos, Run1(s, k), Run1(o, k)) && Runs(cmp, pos, After(s, k), After(o, k), k))
  }

  ghost predicate Increasing(pos: map<Ptr, nat>, o: seq<Ptr>) {
    && (forall i :: 0 <= i < |o| ==> o[i] in pos)
    && (forall i, j :: 0 <= i < j < |o| ==> pos[o[i]] < pos[o[j]])
  }

  lemma {:induction false} SingleRuns(cmp: Compare, pos: map<Ptr, nat>, o: seq<Ptr>)
    ensures Runs(cmp, pos, o, o, 1)
    decreases |o|
  {
    if o != [] {
      SingleRuns(cmp, pos, o[1..]);
    }
  }

  lemma SegmentsEarlier(pos: map<Ptr, nat>, a: seq<Ptr>, b: seq<Ptr>, o: seq<Ptr>, k: nat)
    requires Increasing(pos, o) && multiset(a) == multiset(Run1(o, k)) && multiset(b) == multiset(Run2(o, k))
    ensures AllEarlier(pos, a, b)
  {
    forall x, y | x in a && y in b
      ensures x in pos && y in pos && pos[x] < pos[y]
    {
      assert x in multiset(a) && y in multiset(b);
      var i :| 0 <= i < |Run1(o, k)| && Run1(o, k)[i] == x;
      var j :| 0 <= j < |Run2(o, k)| && Run2(o, k)[j] == y;
      RunPlaces(o, k, i, j);
    }
  }

  lemma RunPlaces(o: seq<Ptr>, k: nat, i: nat, j: nat)
    requires i < |Run1(o, k)| && j < |Run2(o, k)|
    ensures i < k && k + j < |o| && Run1(o, k)[i] == o[i] && Run2(o, k)[j] == o[k + j]
  {
  }

  /** Two adjacent sorted segments merge into one of twice the length. */
  lemma SegmentsMerge(cmp: Compare, pos: map<Ptr, nat>, a: seq<Ptr>, b: seq<Ptr>, o: seq<Ptr>, k: nat)
    requires TotalPreorder(cmp) && Increasing(pos, o)
    requires Segment(cmp, pos, a, Run1(o, k)) && Segment(cmp, pos, b, Run2(o, k))
    ensures Segment(cmp, pos, Merge(cmp, a, b), Run1(o, 2 * k))
  {
    SegmentsEarlier(pos, a, b, o, k);
    MergeSorted(cmp, pos, a, b);
    MergeKeeps(cmp, a, b);
    RunsJoin(o, k);
  }

  lemma RunsJoin(o: seq<Ptr>, k: nat)
    ensures multiset(Run1(o, 2 * k)) == multiset(Run1(o, k)) + multiset(Run2(o, k))
  {
    assert Run1(o, 2 * k) == Run1(o, k) + Run2(o, k);
  }

  lemma RunsSecond(cmp: Compare, pos: map<Ptr, nat>, s: seq<Ptr>, o: seq<Ptr>, k: nat)
    requires k > 0 && Runs(cmp, pos, s, o, k) && s != []
    ensures Segment(cmp, pos, Run2(s, k), Run2(o, k))
    ensures Runs(cmp, pos, After(s, 2 * k), After(o, 2 * k), k)
  {
    var r, t := After(s, k), After(o, k);
    if r != [] {
      assert Run1(r, k) == Run2(s, k) && Run1(t, k) == Run2(o, k);
      assert After(r, k) == After(s, 2 * k) && After(t, k) == After(o, 2 * k);
    } else {
      assert Run2(s, k) == [] == Run2(o, k) && After(s, 2 * k) == [] == After(o, 2 * k);
    }
  }

  lemma RunsCons(cmp: Compare, pos: map<Ptr, nat>, r: seq<Ptr>, o: seq<Ptr>, a: seq<Ptr>, b: seq<Ptr>, k: nat)
    requires k > 0 && r == a + b && |r| == |o| > 0 && |a| == Min(k, |o|)
    requires Segment(cmp, pos, a, Run1(o, k)) && Runs(cmp, pos, b, After(o, k), k)
    ensures Runs(cmp, pos, r, o, k)
  {
  }

  lemma {:induction false} PassLength(cmp: Compare, s: seq<Ptr>, k: nat)
    requires k > 0
    ensures |Pass(cmp, s, k)| == |s|
    decreases |s|
  {
    if s != [] {
      MergeLength(cmp, Run1(s, k), Run2(s, k));
      PassLength(cmp, After(s, 2 * k), k);
    }
  }

  /** A pass over runs of length k leaves runs of length 2k. */
  lemma {:induction false} PassDoublesRuns(cmp: Compare, pos: map<Ptr, nat>, s: seq<Ptr>, o: seq<Ptr>, k: nat)
    requires k > 0 && TotalPreorder(cmp) && Increasing(pos, o) && Runs(cmp, pos, s, o, k)
    ensures Runs(cmp, pos, Pass(cmp, s, k), o, 2 * k)
    decreases |s|
  {
    if s != [] {
      RunsSecond(cmp, pos, s, o, k);
      SegmentsMerge(cmp, pos, Run1(s, k), Run2(s, k), o, k);
      PassDoublesRuns(cmp, pos, After(s, 2 * k), After(o, 2 * k), k);
      PassLength(cmp, s, k);
      MergeLength(cmp, Run1(s, k), Run2(s, k));
      RunsCons(cmp, pos, Pass(cmp, s, k), o, Merge(cmp, Run1(s, k), Run2(s, k)), Pass(cmp, After(s, 2 * k), k), 2 * k);
    }
  }

  /** A single run is the whole list, stably sorted. */
  lemma OneRun(cmp: Compare, pos: map<Ptr, nat>, s: seq<Ptr>, o: seq<Ptr>, k: nat)
    requires k > 0 && Runs(cmp, pos, s, o, k) && |s| <= k
    ensures Segment(cmp, pos, s, o)
  {
    assert s[..|s|] == s && o[..|s|] == o;
  }

  /** Passes with doubling run lengths, until one merge was enough. */
  function Passes(cmp: Compare, s: seq<Ptr>, k: nat): seq<Ptr>
    requires k > 0
    decreases |s| - k
  {
    if |s| <= 2 * k then Pass(cmp, s, k)
    else PassLength(cmp, s, k); Passes(cmp, Pass(cmp, s, k), 2 * k)
  }

  lemma {:induction false} PassesSort(cmp: Compare, pos: map<Ptr, nat>, s: seq<Ptr>, o: seq<Ptr>, k: nat)
    requires k > 0 && TotalPreorder(cmp) && Increasing(pos, o) && Runs(cmp, pos, s, o, k)
    ensures Segment(cmp, pos, Passes(cmp, s, k), o)
    decreases |s| - k
  {
    PassDoublesRuns(cmp, pos, s, o, k);
    PassLength(cmp, s, k);
    if |s| <= 2 * k {
      OneRun(cmp, pos, Pass(cmp, s, k), o, 2 * k);
    } else {
      PassesSort(cmp, pos, Pass(cmp, s, k), o, 2 * k);
    }
  }

  /** Where each item of the original list stood. */
  ghost function Positions(s: seq<Ptr>): (pos: map<Ptr, nat>)
    requires Distinct(s)
    ensures Increasing(pos, s)
  {
    map i | 0 <= i < |s| :: s[i] := i
  }

  /** For a total preorder the passes are a stable sort of any list. */
  lemma StableSort(cmp: Compare, s: seq<Ptr>)
    requires TotalPreorder(cmp) && Distinct(s)
    ensures multiset(Passes(cmp, s, 1)) == multiset(s) && StablySorted(cmp, Positions(s), Passes(cmp, s, 1))
  {
    SingleRuns(cmp, Positions(s), s);
    PassesSort(cmp, Positions(s), s, s, 1);
  }

  // Relinking in place.

  predicate Step(next: map<Ptr, Ptr>, s: seq<Ptr>, i: int)
    requires 0 <= i < |s| - 1
  {
    s[i] in next && next[s[i]] == s[i + 1]
  }

  /** Following next walks through s; where its last item points is left open. */
  ghost predicate Walk(next: map<Ptr, Ptr>, s: seq<Ptr>) {
    forall i :: 0 <= i < |s| - 1 ==> Step(next, s, i)
  }

  ghost predicate Back(prev: map<Ptr, Ptr>, s: seq<Ptr>) {
    forall i :: 0 <= i < |s| ==> s[i] in prev && prev[s[i]] == Nth(s, i - 1)
  }

  /** A pass in progress: the output list, the unmerged rest of the left run, and everything
      from the right run on, all made of different handles. */
  ghost predicate Sorting(l: Links, out: seq<Ptr>, p: seq<Ptr>, r: seq<Ptr>) {
    && Distinct(out + p + r)
    && (forall x :: x in out + p + r ==> Node(l, x))
    && Walk(l.next, out) && Back(l.prev, out)
    && Walk(l.next, p)
    && Walk(l.next, r) && (r != [] ==> r[|r| - 1] in l.next && l.next[r[|r| - 1]] == 0)
  }

  /** Hang e behind the tail of the output. */
  function Hang(l: Links, tail: Ptr, e: Ptr): Links {
    Links(if tail != 0 then l.next[tail := e] else l.next, l.prev[e := tail])
  }

  lemma WalkFrame(next: map<Ptr, Ptr>, next': map<Ptr, Ptr>, s: seq<Ptr>)
    requires Walk(next, s) && forall x :: x in s && x in next ==> x in next' && next'[x] == next[x]
    ensures Walk(next', s)
  {
    forall i | 0 <= i < |s| - 1
      ensures Step(next', s, i)
    {
      assert Step(next, s, i);
    }
  }

  lemma WalkTail(next: map<Ptr, Ptr>, s: seq<Ptr>)
    requires Walk(next, s) && s != []
    ensures Walk(next, s[1..])
    ensures |s| > 1 ==> s[0] in next && next[s[0]] == s[1]
  {
    forall i | 0 <= i < |s[1..]| - 1
      ensures Step(next, s[1..], i)
    {
      assert Step(next, s, i + 1);
    }
    if |s| > 1 {
      assert Step(next, s, 0);
    }
  }

  lemma HangOut(l: Links, out: seq<Ptr>, e: Ptr)
    requires Distinct(out) && e !in out && e != 0 && Walk(l.next, out) && Back(l.prev, out)
    requires forall x :: x in out ==> Node(l, x)
    ensures Walk(Hang(l, Last(out), e).next, out + [e]) && Back(Hang(l, Last(out), e).prev, out + [e])
  {
    var m, t := Hang(l, Last(out), e), out + [e];
    forall i | 0 <= i < |t| - 1
      ensures Step(m.next, t, i)
    {
      assert Node(l, out[i]);
      if i < |out| - 1 {
        assert Step(l.next, out, i) && out[i] != out[|out| - 1];
      }
    }
    forall i | 0 <= i < |t|
      ensures t[i] in m.prev && m.prev[t[i]] == Nth(t, i - 1)
    {
      if i < |out| {
        assert out[i] != e;
      }
    }
  }

  /** The three parts share no handle. */
  lemma Apart(out: seq<Ptr>, p: seq<Ptr>, r: seq<Ptr>)
    requires Distinct(out + p + r)
    ensures Distinct(out) && Distinct(p) && Distinct(r)
    ensures forall x :: x in out ==> x !in p && x !in r
    ensures forall x :: x in p ==> x !in r
  {
    var all := out + p + r;
    assert forall i :: 0 <= i < |out| ==> all[i] == out[i];
    assert forall i :: 0 <= i < |p| ==> all[|out| + i] == p[i];
    assert forall i :: 0 <= i < |r| ==> all[|out| + |p| + i] == r[i];
  }

  /** Taking the next item from the left run. */
  lemma TakeLeft(l: Links, out: seq<Ptr>, p: seq<Ptr>, r: seq<Ptr>)
    requires Sorting(l, out, p, r) && p != []
    ensures p[0] != 0 && p[0] in l.next && (|p| > 1 ==> l.next[p[0]] == p[1])
    ensures Sorting(Hang(l, Last(out), p[0]), out + [p[0]], p[1..], r)
  {
    Apart(out, p, r);
    assert p[0] in out + p + r;
    HangOut(l, out, p[0]);
    var m := Hang(l, Last(out), p[0]);
    WalkTail(l.next, p);
    assert Last(out) != 0 ==> Last(out) in out;
    assert forall x :: x in p[1..] ==> x in p;
    WalkFrame(l.next, m.next, p[1..]);
    WalkFrame(l.next, m.next, r);
    assert out + [p[0]] + p[1..] + r == out + p + r;
    assert r != [] ==> r[|r| - 1] in r;
  }

  /** Taking the next item from the right run. */
  lemma TakeRight(l: Links, out: seq<Ptr>, p: seq<Ptr>, r: seq<Ptr>)
    requires Sorting(l, out, p, r) && r != []
    ensures r[0] != 0 && r[0] in l.next && l.next[r[0]] == Nth(r, 1)
    ensures Sorting(Hang(l, Last(out), r[0]), out + [r[0]], p, r[1..])
  {
    Apart(out, p, r);
    assert r[0] in out + p + r;
    HangOut(l, out, r[0]);
    var m := Hang(l, Last(out), r[0]);
    WalkTail(l.next, r);
    assert Last(out) != 0 ==> Last(out) in out;
    assert forall x :: x in r[1..] ==> x in r;
    WalkFrame(l.next, m.next, r[1..]);
    WalkFrame(l.next, m.next, p);
    Rotate(out, p, r);
    assert |r| > 1 ==> r[1..][|r| - 2] == r[|r| - 1] && r[|r| - 1] in r;
  }

  lemma Rotate(out: seq<Ptr>, p: seq<Ptr>, r: seq<Ptr>)
    requires r != [] && Distinct(out + p + r)
    ensures Distinct(out + [r[0]] + p + r[1..])
    ensures forall x :: x in out + [r[0]] + p + r[1..] <==> x in out + p + r
  {
    var all, new_ := out + p + r, out + [r[0]] + p + r[1..];
    var n, m := |out|, |out| + |p|;
    assert forall i :: 0 <= i < |new_| ==>
        new_[i] == all[if i < n then i else if i == n then m else if i <= m then i - 1 else i];
    assert forall i :: 0 <= i < |all| ==>
        all[i] == new_[if i < n then i else if i == m then n else if i < m then i + 1 else i];
  }

  lemma MergeLeft(cmp: Compare, p: seq<Ptr>, q: seq<Ptr>)
    requires p != [] && (q == [] || cmp(p[0], q[0]) <= 0)
    ensures Merge(cmp, p, q) == [p[0]] + Merge(cmp, p[1..], q)
  {
  }

  lemma MergeRight(cmp: Compare, p: seq<Ptr>, q: seq<Ptr>)
    requires q != [] && (p == [] || cmp(p[0], q[0]) > 0)
    ensures Merge(cmp, p, q) == [q[0]] + Merge(cmp, p, q[1..])
  {
  }

  lemma RunHead(r: seq<Ptr>, k: nat)
    requires r != [] && k > 0
    ensures Run1(r, k) != [] && Run1(r, k)[0] == r[0]
    ensures Run1(r, k)[1..] == Run1(r[1..], k - 1) && After(r, k) == After(r[1..], k - 1)
  {
  }

  lemma FirstIsHandle(l: Links, out: seq<Ptr>, p: seq<Ptr>, r: seq<Ptr>)
    requires Sorting(l, out, p, r)
    ensures r == [] <==> First(r) == 0
    ensures out == [] <==> Last(out) == 0
  {
    if r != [] {
      assert r[0] in out + p + r;
    }
    if out != [] {
      assert out[|out| - 1] in out + p + r;
    }
  }

  lemma OutGrows(out: seq<Ptr>, e: Ptr, t: seq<Ptr>)
    ensures out + ([e] + t) == out + [e] + t
    ensures First(out + [e]) == if out == [] then e else First(out)
    ensures Last(out + [e]) == e
  {
  }

  /** The innermost loop: the left run, and at most k items from the right, go to the output. */
  method MergeRuns(cmp: Compare, l0: Links, list0: Ptr, tail0: Ptr, p0: Ptr, psize0: nat, q0: Ptr, k: nat,
                   ghost out0: seq<Ptr>, ghost left: seq<Ptr>, ghost right: seq<Ptr>)
    returns (l: Links, list: Ptr, tail: Ptr, q: Ptr, ghost out: seq<Ptr>)
    requires Sorting(l0, out0, left, right) && |left| == psize0 && p0 == First(left) && q0 == First(right)
    requires list0 == First(out0) && tail0 == Last(out0)
    ensures out == out0 + Merge(cmp, left, Run1(right, k))
    ensures Sorting(l, out, [], After(right, k)) && q == First(After(right, k))
    ensures list == First(out) && tail == Last(out)
  {
    l, list, tail, out := l0, list0, tail0, out0;
    q := q0;
    var p, psize, qsize := p0, psize0, k;
    ghost var lp, r := left, right;
    FirstIsHandle(l, out, lp, r);
    while psize != 0 || (qsize != 0 && q != 0)
      invariant Sorting(l, out, lp, r) && |lp| == psize && (lp != [] ==> p == lp[0])
      invariant q == First(r) && (r == [] <==> q == 0)
      invariant list == First(out) && tail == Last(out) && (out == [] <==> tail == 0)
      invariant out + Merge(cmp, lp, Run1(r, qsize)) == out0 + Merge(cmp, left, Run1(right, k))
      invariant After(r, qsize) == After(right, k)
      decreases psize + |r|
    {
      ghost var run := Run1(r, qsize);
      var e;
      if psize != 0 && (qsize == 0 || q == 0 || cmp(p, q) <= 0) {
        TakeLeft(l, out, lp, r);
        MergeLeft(cmp, lp, run);
        e := p;
        p := l.next[p];
        psize := psize - 1;
        lp := lp[1..];
      } else {
        TakeRight(l, out, lp, r);
        RunHead(r, qsize);
        MergeRight(cmp, lp, run);
        e := q;
        q := l.next[q];
        qsize := qsize - 1;
        r := r[1..];
      }
      l := Hang(l, tail, e);
      if tail == 0 {
        list := e;
      }
      tail := e;
      OutGrows(out, e, Merge(cmp, lp, Run1(r, qsize)));
      out := out + [e];
      FirstIsHandle(l, out, lp, r);
    }
    assert Run1(r, qsize) == [] && After(r, qsize) == r;
  }

  /** The loop that steps q over the left run. */
  method SkipRun(l: Links, p: Ptr, k: nat, ghost out: seq<Ptr>, ghost s: seq<Ptr>) returns (q: Ptr, psize: nat)
    requires Sorting(l, out, [], s) && s != [] && p == s[0] && k > 0
    ensures psize == |Run1(s, k)| && q == First(After(s, k))
  {
    q, psize := p, 0;
    for i := 0 to k
      invariant psize == i <= |s| && q == Nth(s, i) && (i > 0 ==> i < |s|)
    {
      psize := psize + 1;
      assert s[i] in out + [] + s;
      assert i < |s| - 1 ==> Step(l.next, s, i) && s[i + 1] in out + [] + s;
      q := l.next[q];
      if q == 0 {
        break;
      }
    }
  }

  lemma SplitRun(l: Links, out: seq<Ptr>, s: seq<Ptr>, k: nat)
    requires Sorting(l, out, [], s)
    ensures Sorting(l, out, Run1(s, k), After(s, k))
  {
    var a, b := Run1(s, k), After(s, k);
    assert out + [] + s == out + a + b;
    forall i | 0 <= i < |a| - 1
      ensures Step(l.next, a, i)
    {
      assert Step(l.next, s, i);
    }
    forall i | 0 <= i < |b| - 1
      ensures Step(l.next, b, i)
    {
      assert Step(l.next, s, |a| + i);
    }
  }

  lemma StartSorting(l: Links, s: seq<Ptr>)
    requires Linked(l, s)
    ensures Sorting(l, [], [], s)
  {
    assert [] + [] + s == s;
    forall i | 0 <= i < |s|
      ensures Node(l, s[i]) && l.next[s[i]] == Nth(s, i + 1)
    {
      assert At(l, s, i);
    }
    assert forall i :: 0 <= i < |s| - 1 ==> Step(l.next, s, i);
  }

  lemma DoneSorting(l: Links, out: seq<Ptr>)
    requires Sorting(l, out, [], []) && out != []
    ensures Last(out) != 0 && Linked(Links(l.next[Last(out) := 0], l.prev), out)
  {
    assert out + [] + [] == out;
    assert Node(l, out[|out| - 1]);
    EndOfList(l, out, Links(l.next[Last(out) := 0], l.prev));
  }

  lemma EndOfList(l: Links, s: seq<Ptr>, m: Links)
    requires Distinct(s) && (forall x :: x in s ==> Node(l, x)) && Walk(l.next, s) && Back(l.prev, s) && s != []
    requires m == Links(l.next[s[|s| - 1] := 0], l.prev)
    ensures Linked(m, s)
  {
    forall i | 0 <= i < |s|
      ensures At(m, s, i)
    {
      assert Node(l, s[i]);
      if i < |s| - 1 {
        assert Step(l.next, s, i) && s[i] != s[|s| - 1];
      }
    }
  }

  /** The rest of the list after n merges: whether there was more than one of them. */
  ghost predicate Merges(s: seq<Ptr>, rest: seq<Ptr>, k: nat, n: nat) {
    && (n == 0 ==> rest == s)
    && (n == 1 ==> rest == After(s, 2 * k))
    && (n >= 2 ==> |s| > 2 * k)
  }

  lemma AllMerged(s: seq<Ptr>, k: nat, n: nat)
    requires Merges(s, [], k, n) && s != []
    ensures n <= 1 <==> |s| <= 2 * k
  {
  }

  lemma OneMore(s: seq<Ptr>, rest: seq<Ptr>, k: nat, n: nat)
    requires Merges(s, rest, k, n) && rest != [] && s != []
    ensures Merges(s, After(rest, 2 * k), k, n + 1)
  {
  }

  /** One iteration of the pass loop merges the first two runs of what is left. */
  method MergeNext(cmp: Compare, l0: Links, list0: Ptr, tail0: Ptr, p0: Ptr, k: nat, ghost out0: seq<Ptr>,
                   ghost s: seq<Ptr>)
    returns (l: Links, list: Ptr, tail: Ptr, p: Ptr, ghost out: seq<Ptr>)
    requires Sorting(l0, out0, [], s) && s != [] && p0 == s[0] && k > 0 && list0 == First(out0) && tail0 == Last(out0)
    ensures out + Pass(cmp, After(s, 2 * k), k) == out0 + Pass(cmp, s, k)
    ensures Sorting(l, out, [], After(s, 2 * k)) && p == First(After(s, 2 * k))
    ensures list == First(out) && tail == Last(out)
  {
    var q, psize := SkipRun(l0, p0, k, out0, s);
    SplitRun(l0, out0, s, k);
    ghost var left, right := Run1(s, k), After(s, k);
    l, list, tail, p, out := MergeRuns(cmp, l0, list0, tail0, p0, psize, q, k, out0, left, right);
    assert Run1(right, k) == Run2(s, k) && After(right, k) == After(s, 2 * k);
    Regroup(out0, Merge(cmp, left, Run2(s, k)), Pass(cmp, After(s, 2 * k), k));
  }

  lemma Regroup(a: seq<Ptr>, b: seq<Ptr>, c: seq<Ptr>)
    ensures a + (b + c) == a + b + c
  {
  }

  /** The loop over the pairs of runs. */
  method MergeAll(cmp: Compare, l0: Links, first: Ptr, k: nat, ghost s: seq<Ptr>)
    returns (l: Links, list: Ptr, tail: Ptr, nmerges: nat)
    requires Sorting(l0, [], [], s) && first == First(s) && k > 0
    ensures Sorting(l, Pass(cmp, s, k), [], []) && list == First(Pass(cmp, s, k)) && tail == Last(Pass(cmp, s, k))
    ensures Merges(s, [], k, nmerges)
  {
    l, list, tail, nmerges := l0, 0, 0, 0;
    var p := first;
    ghost var out, rest := [], s;
    FirstIsHandle(l, out, [], rest);
    assert [] + Pass(cmp, s, k) == Pass(cmp, s, k);
    while p != 0
      invariant Sorting(l, out, [], rest) && p == First(rest) && (rest == [] <==> p == 0)
      invariant out + Pass(cmp, rest, k) == Pass(cmp, s, k)
      invariant list == First(out) && tail == Last(out)
      invariant Merges(s, rest, k, nmerges) && (rest != [] ==> s != [])
      decreases |rest|
    {
      OneMore(s, rest, k, nmerges);
      nmerges := nmerges + 1;
      l, list, tail, p, out := MergeNext(cmp, l, list, tail, p, k, out, rest);
      rest := After(rest, 2 * k);
      FirstIsHandle(l, out, [], rest);
    }
    assert out + [] == out;
  }

  /** One pass over the list. */
  method SortPass(cmp: Compare, l0: Links, first: Ptr, k: nat, ghost s: seq<Ptr>)
    returns (l: Links, list: Ptr, tail: Ptr, nmerges: nat)
    requires Linked(l0, s) && s != [] && first == First(s) && k > 0
    ensures Linked(l, Pass(cmp, s, k)) && list == First(Pass(cmp, s, k)) && tail == Last(Pass(cmp, s, k))
    ensures nmerges <= 1 <==> |s| <= 2 * k
  {
    StartSorting(l0, s);
    l, list, tail, nmerges := MergeAll(cmp, l0, first, k, s);
    AllMerged(s, k, nmerges);
    PassLength(cmp, s, k);
    DoneSorting(l, Pass(cmp, s, k));
    if tail != 0 {
      l := Links(l.next[tail := 0], l.prev);
    }
  }

  /** A pass and what is left to do after it. */
  method SortStep(cmp: Compare, l0: Links, first: Ptr, k: nat, ghost s: seq<Ptr>, ghost goal: seq<Ptr>)
    returns (l: Links, list: Ptr, tail: Ptr, nmerges: nat, ghost r: seq<Ptr>)
    requires Linked(l0, s) && s != [] && first == First(s) && k > 0 && goal == Passes(cmp, s, k)
    ensures Linked(l, r) && list == First(r) && tail == Last(r) && |r| == |s|
    ensures nmerges <= 1 <==> |s| <= 2 * k
    ensures goal == if nmerges <= 1 then r else Passes(cmp, r, 2 * k)
  {
    l, list, tail, nmerges := SortPass(cmp, l0, first, k, s);
    PassLength(cmp, s, k);
    r := Pass(cmp, s, k);
  }

  /** The loop over the passes. */
  method SortLoop(cmp: Compare, l0: Links, head0: Ptr, ghost s: seq<Ptr>, ghost goal: seq<Ptr>)
    returns (l: Links, head: Ptr, tail: Ptr)
    requires Linked(l0, s) && s != [] && head0 == First(s) && goal == Passes(cmp, s, 1)
    ensures Linked(l, goal) && head == First(goal) && tail == Last(goal)
  {
    l, head, tail := l0, head0, 0;
    var k, looping := 1, true;
    ghost var r := s;
    while looping
      invariant k > 0 && Linked(l, r) && |r| == |s| && head == First(r)
      invariant looping ==> goal == Passes(cmp, r, k)
      invariant !looping ==> goal == r && tail == Last(r)
      decreases looping, |s| - k
    {
      var nmerges;
      l, head, tail, nmerges, r := SortStep(cmp, l, head, k, r, goal);
      looping := nmerges > 1;
      k := 2 * k;
    }
  }

  /** HASH_SRT: the relinking computes the passes, for every list and every comparison function. */
  method Sort(cmp: Compare, l0: Links, head0: Ptr, ghost s: seq<Ptr>) returns (l: Links, head: Ptr, tail: Ptr)
    requires Linked(l0, s) && s != [] && head0 == First(s)
    ensures Linked(l, Passes(cmp, s, 1)) && head == First(Passes(cmp, s, 1)) && tail == Last(Passes(cmp, s, 1))
  {
    l, head, tail := SortLoop(cmp, l0, head0, s, Passes(cmp, s, 1));
  }

  /** HASH_SORT on a table: the order becomes the stable sort, and HASH_FSCK still holds. */
  method SortTable<K>(t: UtHash.Table<K>, cmp: Compare)
    requires t.Fsck() && TotalPreorder(cmp)
    modifies t`app, t`head, t`tail, t`order
    ensures t.Fsck() && multiset(t.order) == multiset(old(t.order))
    ensures StablySorted(cmp, Positions(old(t.order)), t.order)
  {
    t.EmptyOrder();
    if t.head == 0 {
      return;
    }
    var l, head, tail := Sort(cmp, t.app, t.head, t.order);
    StableSort(cmp, t.order);
    SameItems(t.order, Passes(cmp, t.order, 1));
    t.Relink(l, head, tail, Passes(cmp, t.order, 1));
  }

  lemma SameItems(s: seq<Ptr>, r: seq<Ptr>)
    requires multiset(r) == multiset(s)
    ensures |r| == |s| && forall x :: x in r <==> x in s
  {
    assert |multiset(r)| == |r| && |multiset(s)| == |s|;
    assert forall x :: x in r <==> x in multiset(r);
    assert forall x :: x in s <==> x in multiset(s);
  }
}
