/** The growable pointer vector, refined to a sequence; the reference-count module uses it
    as its cleanup queue. */
module Vector {
  import opened Status

  function Nulls<T>(n: nat): (s: seq<Option<T>>)
    ensures |s| == n && forall i :: 0 <= i < n ==> s[i] == None
  {
    seq(n, _ => None)
  }

  /** The sequence after vector_set at any index: a gap is filled with NULLs. */
  function SetAt<T>(s: seq<Option<T>>, index: nat, x: Option<T>): seq<Option<T>> {
    if index < |s| then s[index := x] else s + Nulls(index - |s|) + [x]
  }

  /** The sequence after vector_insert. */
  function InsertAt<T>(s: seq<Option<T>>, index: nat, x: Option<T>): seq<Option<T>> {
    if index < |s| then s[..index] + [x] + s[index..] else SetAt(s, index, x)
  }

  class PointerVector<T> {
    var data: array<Option<T>>
    var len: nat
    const maxInc: nat

    /** Slots past the end hold NULL. */
    ghost predicate Valid()
      reads this, data
    {
      && len <= data.Length && data.Length > 0 && maxInc > 0
      && forall i :: len <= i < data.Length ==> data[i] == None
    }

    ghost function Contents(): seq<Option<T>>
      reads this, data
      requires Valid()
    {
      data[..len]
    }

    constructor (capacity: nat, maxInc: nat)
      requires capacity > 0 && maxInc > 0
      ensures Valid() && fresh(data) && Contents() == [] && data.Length == capacity && this.maxInc == maxInc
    {
      data := new Option<T>[capacity](_ => None);
      len := 0;
      this.maxInc := maxInc;
    }

    /** The capacity one call of ensure_capacity can reach: half as much again, at least one
        more, at most maxInc more. */
    function Reach(): (r: nat)
      reads this, data
      requires Valid()
      ensures var inc := r - data.Length;
              && 1 <= inc <= maxInc && (inc == 1 || 2 * inc <= data.Length)
              && (inc == maxInc || 2 * (inc + 1) > data.Length)
    {
      var half := data.Length / 2;
      var inc := if half > maxInc then maxInc else half;
      data.Length + (if inc < 1 then 1 else inc)
    }

    method EnsureCapacity(capacity: nat, allocOk: bool) returns (rc: int)
      requires Valid()
      modifies this`data
      ensures Valid() && Contents() == old(Contents()) && (data == old(data) || fresh(data))
      ensures rc == if capacity <= old(data.Length) || allocOk then STATUS_OK else ERR_NO_MEM
      ensures data.Length == if rc == STATUS_OK && capacity > old(data.Length) then old(Reach()) else old(data.Length)
    {
      if capacity <= data.Length {
        return STATUS_OK;
      }
      if !allocOk {
        return ERR_NO_MEM;
      }
      var newData := new Option<T>[Reach()](_ => None);
      forall i | 0 <= i < data.Length {
        newData[i] := data[i];
      }
      data := newData;
      rc := STATUS_OK;
    }

    /** vector_set. The source stores without a further check; `inside` says whether that store
        hits the array, which it does exactly within one growth step of the capacity. */
    method Set(index: int, x: Option<T>, allocOk: bool) returns (rc: int, inside: bool)
      requires Valid()
      modifies this, data
      ensures Valid() && (data == old(data) || fresh(data))
      ensures rc == if index < 0 then ERR_OUT_OF_BOUNDS
                    else if index < old(data.Length) || allocOk then STATUS_OK else ERR_NO_MEM
      ensures rc == STATUS_OK ==> (inside <==> index < old(Reach()))
      ensures Contents() == if rc == STATUS_OK && inside then SetAt(old(Contents()), index, x) else old(Contents())
    {
      inside := false;
      if index < 0 {
        return ERR_OUT_OF_BOUNDS, inside;
      }
      rc := EnsureCapacity(index + 1, allocOk);
      if rc != STATUS_OK {
        return;
      }
      inside := index < data.Length;
      if inside {
        Store(index, x);
      }
    }

    method Store(index: nat, x: Option<T>)
      requires Valid() && index < data.Length
      modifies this`len, data
      ensures Valid() && data == old(data) && Contents() == SetAt(old(Contents()), index, x)
    {
      data[index] := x;
      if index >= len {
        len := index + 1;
      }
    }

    /** vector_insert: everything from index on moves up one slot. At the end it always fits. */
    method Insert(index: int, x: Option<T>, allocOk: bool) returns (rc: int, inside: bool)
      requires Valid()
      modifies this, data
      ensures Valid() && (data == old(data) || fresh(data))
      ensures rc == if index < 0 then ERR_OUT_OF_BOUNDS
                    else if (index < old(data.Length) && old(len) < old(data.Length)) || allocOk then STATUS_OK
                        else ERR_NO_MEM
      ensures rc == STATUS_OK ==> (inside <==> index < old(Reach()))
      ensures Contents() == if rc == STATUS_OK && inside then InsertAt(old(Contents()), index, x) else old(Contents())
    {
      inside := true;
      if index < 0 {
        return ERR_OUT_OF_BOUNDS, inside;
      }
      if index >= len {
        rc, inside := Set(index, x, allocOk);
        return;
      }
      rc := EnsureCapacity(len + 1, allocOk);
      if rc != STATUS_OK {
        return;
      }
      OpenGap(index, x);
    }

    method OpenGap(index: nat, x: Option<T>)
      requires Valid() && index < len < data.Length
      modifies this`len, data
      ensures Valid() && data == old(data) && Contents() == InsertAt(old(Contents()), index, x)
    {
      ghost var s := data[..len];
      forall i | index < i <= len {
        data[i] := data[i - 1];
      }
      data[index] := x;
      len := len + 1;
      assert data[..len] == s[..index] + [x] + s[index..];
    }

    /** vector_remove: NULL when out of bounds, else the element, the rest closing up. */
    method Remove(index: int) returns (r: Option<T>)
      requires Valid()
      modifies this`len, data
      ensures Valid() && data == old(data)
      ensures 0 <= index < |old(Contents())| ==>
                && r == old(Contents())[index]
                && Contents() == old(Contents())[..index] + old(Contents())[index + 1..]
      ensures !(0 <= index < |old(Contents())|) ==> r == None && Contents() == old(Contents())
    {
      if index < 0 || index >= len {
        return None;
      }
      r := data[index];
      CloseGap(index);
    }

    method CloseGap(index: nat)
      requires Valid() && index < len
      modifies this`len, data
      ensures Valid() && data == old(data)
      ensures Contents() == old(Contents())[..index] + old(Contents())[index + 1..]
    {
      ghost var s := data[..len];
      forall i | index <= i < len - 1 {
        data[i] := data[i + 1];
      }
      data[len - 1] := None;
      len := len - 1;
      assert data[..len] == s[..index] + s[index + 1..];
    }
  }

  /** What is left after n headers came out of the front, and what came out. */
  ghost predicate Drained<T>(s: seq<Option<T>>, cleaned: seq<T>, rest: seq<Option<T>>) {
    && |cleaned| <= |s| && rest == s[|cleaned|..]
    && forall i :: 0 <= i < |cleaned| ==> s[i] == Some(cleaned[i])
  }

  lemma DrainOne<T>(s: seq<Option<T>>, cleaned: seq<T>, rest: seq<Option<T>>, x: T)
    requires Drained(s, cleaned, rest) && rest != [] && rest[0] == Some(x)
    ensures Drained(s, cleaned + [x], rest[..0] + rest[1..])
  {
  }

  /** The drain loop of the cleanup thread and of refcount_teardown: every queued header comes
      out, oldest first, and the queue ends empty. */
  method Drain<T>(queue: PointerVector<T>) returns (cleaned: seq<T>)
    requires queue.Valid() && forall x :: x in queue.Contents() ==> x.Some?
    modifies queue`len, queue.data
    ensures queue.Valid() && queue.data == old(queue.data) && queue.Contents() == []
    ensures |cleaned| == |old(queue.Contents())|
    ensures forall i :: 0 <= i < |cleaned| ==> old(queue.Contents())[i] == Some(cleaned[i])
  {
    cleaned := [];
    ghost var s := queue.Contents();
    var more := true;
    while more
      invariant queue.Valid() && queue.data == old(queue.data)
      invariant Drained(s, cleaned, queue.Contents()) && (!more ==> queue.Contents() == [])
      decreases more, |s| - |cleaned|
    {
      ghost var rest := queue.Contents();
      assert rest != [] ==> rest[0] in s;
      var header := queue.Remove(0);
      if header.Some? {
        DrainOne(s, cleaned, rest, header.value);
        cleaned := cleaned + [header.value];
      }
      more := header.Some?;
    }
  }
}
