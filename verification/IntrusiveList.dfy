/** Doubly linked lists threaded through handles: pointers are numbers with 0 for NULL, and the
    next and prev fields of all handles are two maps. */
module IntrusiveList {

  type Ptr = nat

  datatype Links = Links(next: map<Ptr, Ptr>, prev: map<Ptr, Ptr>)

  /** s[i], or NULL outside the sequence. */
  function Nth(s: seq<Ptr>, i: int): Ptr {
    if 0 <= i < |s| then s[i] else 0
  }

  function First(s: seq<Ptr>): Ptr {
    Nth(s, 0)
  }

  function Last(s: seq<Ptr>): Ptr {
    Nth(s, |s| - 1)
  }

  ghost predicate Distinct(s: seq<Ptr>) {
    forall i, j :: 0 <= i < j < |s| ==> s[i] != s[j]
  }

  predicate Node(l: Links, x: Ptr) {
    x != 0 && x in l.next && x in l.prev
  }

  /** The i-th handle of s points at its two neighbours. */
  predicate At(l: Links, s: seq<Ptr>, i: int)
    requires 0 <= i < |s|
  {
    Node(l, s[i]) && l.next[s[i]] == Nth(s, i + 1) && l.prev[s[i]] == Nth(s, i - 1)
  }

  /** The handles of s are linked in that order, forwards and backwards, with NULL at both ends. */
  ghost predicate Linked(l: Links, s: seq<Ptr>) {
    Distinct(s) && forall i :: 0 <= i < |s| ==> At(l, s, i)
  }

  predicate SameOn(l: Links, m: Links, x: Ptr) {
    && (x in l.next ==> x in m.next && m.next[x] == l.next[x])
    && (x in l.prev ==> x in m.prev && m.prev[x] == l.prev[x])
  }

  /** A list does not notice changes to handles outside it. */
  lemma LinkedFrame(l: Links, m: Links, s: seq<Ptr>)
    requires Linked(l, s) && forall x :: x in s ==> SameOn(l, m, x)
    ensures Linked(m, s)
  {
    forall i | 0 <= i < |s|
      ensures At(m, s, i)
    {
      assert At(l, s, i) && SameOn(l, m, s[i]);
    }
  }

  /** Insert at the end (HASH_APPEND_LIST; with no last element, the first item of a list). */
  function Append(l: Links, last: Ptr, x: Ptr): Links {
    Links((if last != 0 then l.next[last := x] else l.next)[x := 0], l.prev[x := last])
  }

  lemma AppendLinked(l: Links, s: seq<Ptr>, x: Ptr)
    requires Linked(l, s) && x != 0 && x !in s
    ensures Linked(Append(l, Last(s), x), s + [x])
  {
    var m, t := Append(l, Last(s), x), s + [x];
    forall i | 0 <= i < |t|
      ensures At(m, t, i)
    {
      if i < |s| {
        assert At(l, s, i) && s[i] != x;
        assert i < |s| - 1 ==> s[i] != s[|s| - 1];
      }
    }
  }

  /** Insert at the front (HASH_ADD_TO_BKT). */
  function Push(l: Links, first: Ptr, x: Ptr): Links {
    Links(l.next[x := first], (if first != 0 then l.prev[first := x] else l.prev)[x := 0])
  }

  lemma PushLinked(l: Links, s: seq<Ptr>, x: Ptr)
    requires Linked(l, s) && x != 0 && x !in s
    ensures Linked(Push(l, First(s), x), [x] + s)
  {
    var m, t := Push(l, First(s), x), [x] + s;
    forall i | 0 <= i < |t|
      ensures At(m, t, i)
    {
      if i > 0 {
        assert At(l, s, i - 1) && s[i - 1] != x;
        assert i > 1 ==> s[i - 1] != s[0];
      }
    }
  }

  /** Patch the neighbours of x together (HASH_DELETE_HH, HASH_DEL_IN_BKT). */
  function Unlink(l: Links, x: Ptr): Links
    requires Node(l, x)
  {
    var p, n := l.prev[x], l.next[x];
    Links(if p != 0 then l.next[p := n] else l.next, if n != 0 then l.prev[n := p] else l.prev)
  }

  function Without(s: seq<Ptr>, k: nat): seq<Ptr>
    requires k < |s|
  {
    s[..k] + s[k + 1..]
  }

  lemma UnlinkLinked(l: Links, s: seq<Ptr>, k: nat)
    requires Linked(l, s) && k < |s|
    ensures Node(l, s[k]) && Linked(Unlink(l, s[k]), Without(s, k))
  {
    assert At(l, s, k);
    var m, t := Unlink(l, s[k]), Without(s, k);
    forall i | 0 <= i < |t|
      ensures At(m, t, i)
    {
      var j := if i < k then i else i + 1;
      assert t[i] == s[j] && At(l, s, j);
      assert k > 0 && j != k - 1 ==> s[j] != s[k - 1];
      assert k + 1 < |s| && j != k + 1 ==> s[j] != s[k + 1];
    }
  }

  /** The changes stay at the new handle and its neighbour. */
  lemma PushTouches(l: Links, first: Ptr, x: Ptr, y: Ptr)
    requires y != x && y != first
    ensures SameOn(l, Push(l, first, x), y)
  {
  }
}
