/** The data buffer of a tag and its accessors: integers through byte orders, single bits,
    and strings with resizing in the middle of the buffer. */
module TagBuffer {
  import opened Bits
  import opened Status
  import opened ByteOrder
  import opened StringLayout

  predicate BitAt(data: seq<byte>, p: nat)
    requires p / 8 < |data|
  {
    BitOf(data[p / 8], p % 8)
  }

  /** The byte of bit p has changed by 2^(p % 8) if that bit was different, and no other byte has. */
  ghost predicate BitWritten(was: seq<byte>, data: seq<byte>, p: int, v: bool) {
    && |data| == |was| && p >= 0 && p / 8 < |data| && data == was[p / 8 := data[p / 8]]
    && var bit := was[p / 8] / Pow2(p % 8) % 2;
    data[p / 8] == was[p / 8] + (if v then 1 - bit else -bit) * Pow2(p % 8)
  }

  /** The byte update of plc_tag_set_bit_impl. */
  method ByteWithBit(b: byte, k: nat, v: bool) returns (b': byte)
    requires k < 8
    ensures b' == WithBit(b, k, v)
  {
    assert Pow2(8) == 256;
    OrSetsBit(b, k);
    AndClearsBit(b, k, 8);
    WithBitBound(b, k, v, 8);
    b' := if v then Or(b, Pow2(k)) else And(b, 255 - Pow2(k));
  }

  lemma OneBitWritten(was: seq<byte>, data: seq<byte>, at: nat, v: bool)
    requires |data| == |was| && at / 8 < |was| && data == was[at / 8 := data[at / 8]]
    requires data[at / 8] == WithBit(was[at / 8], at % 8, v)
    ensures forall p: nat :: p / 8 < |data| ==> BitAt(data, p) == if p == at then v else BitAt(was, p)
  {
    forall p: nat | p / 8 < |data|
      ensures BitAt(data, p) == if p == at then v else BitAt(was, p)
    {
      WithBitIs(was[at / 8], at % 8, v, p % 8);
    }
  }

  function Zeros(n: nat): (z: seq<byte>)
    ensures |z| == n
  {
    seq(n, _ => 0)
  }

  function Min(a: int, b: int): int {
    if a < b then a else b
  }

  /** The status plc_tag_set_string returns, decided by layout, sizes and allocation. */
  function SetOutcome(l: Layout, allowResize: bool, allocOk: bool, size: nat, offset: nat, held: int, n: nat): (rc: int)
    ensures rc == STATUS_OK <==>
              && (l.maxCapacity == 0 || n <= l.maxCapacity) && (l.counted ==> n < Pow256(l.countBytes))
              && 0 <= held <= size - offset && (NewSize(l, n) == held || (allowResize && allocOk))
  {
    if l.maxCapacity > 0 && n > l.maxCapacity then ERR_TOO_LARGE
    else if held < 0 then held
    else if !allowResize && NewSize(l, n) != held then ERR_NOT_ALLOWED
    else if offset + held > size then ERR_OUT_OF_BOUNDS
    else if NewSize(l, n) != held && !allocOk then ERR_NO_MEM
    else if l.counted && n >= Pow256(l.countBytes) then ERR_TOO_LARGE
    else STATUS_OK
  }

  lemma ShorterPrefix(a: seq<byte>, b: seq<byte>, k: nat, n: nat)
    requires n <= k <= |a| && k <= |b| && a[..k] == b[..k]
    ensures a[..n] == b[..n]
  {
    assert a[..k][..n] == a[..n] && b[..k][..n] == b[..n];
  }

  /** What a failed reallocation leaves: on the shrink path the tail has been moved already. */
  function Stranded(data: seq<byte>, oldSplit: nat, newSplit: nat): (r: seq<byte>)
    requires oldSplit <= |data|
    ensures |r| == |data|
  {
    if oldSplit <= newSplit then data
    else data[..newSplit] + data[oldSplit..] + data[|data| - oldSplit + newSplit..]
  }

  /** The buffer after a successful plc_tag_set_string: what lay before the field, the field of
      the new string, and what lay after the old field. */
  ghost predicate StringSet(l: Layout, s: seq<byte>, was: seq<byte>, data: seq<byte>, offset: nat, held: nat)
    requires l.Usable() && offset + held <= |was|
  {
    && l.Fits(|s|) && FieldAt(l, s, data, offset)
    && |data| == |was| + NewSize(l, |s|) - held
    && data[..offset] == was[..offset]
    && data[offset + NewSize(l, |s|)..] == was[offset + held..]
  }

  /** The buffer after a plc_tag_set_string that failed once sizes were known. */
  function SetFailed(l: Layout, was: seq<byte>, offset: nat, held: nat, n: nat, rc: int): seq<byte>
    requires offset + held <= |was|
  {
    if rc == ERR_NO_MEM then Stranded(was, offset + held, offset + NewSize(l, n))
    else if rc == ERR_TOO_LARGE then was[..offset] + Zeros(NewSize(l, n)) + was[offset + held..]
    else was
  }

  /** The payload byte j once the first i characters have been copied. */
  function CharOrZero(l: Layout, s: seq<byte>, j: nat, i: nat): byte
    requires i <= |s|
  {
    if CharIndex(l, j) < i then s[CharIndex(l, j)] else 0
  }

  lemma CharOrZeroStep(l: Layout, s: seq<byte>, j: nat, i: nat)
    requires i < |s|
    ensures CharOrZero(l, s, j, i + 1) == if j == CharIndex(l, i) then s[i] else CharOrZero(l, s, j, i)
  {
    XorFlag(i);
    XorFlag(j);
  }

  lemma WiderField(before: seq<byte>, after: seq<byte>, offset: nat, c: nat, n: nat)
    requires OnlyField(before, after, offset, c) && c <= n && offset + n <= |before|
    ensures OnlyField(before, after, offset, n)
    ensures forall p :: offset + c <= p < offset + n ==> after[p] == before[p]
  {
    forall p | offset + c <= p < |before|
      ensures after[p] == before[p]
    {
      assert after[offset + c..][p - offset - c] == before[offset + c..][p - offset - c];
    }
  }

  /** Setting a string over its own field, when the field is measured right, changes nothing. */
  lemma SetOverItself(l: Layout, s: seq<byte>, was: seq<byte>, data: seq<byte>, offset: nat)
    requires l.Usable() && l.Fits(|s|) && FieldAt(l, s, was, offset) && offset + NewSize(l, |s|) <= |was|
    requires StringSet(l, s, was, data, offset, NewSize(l, |s|))
    ensures data == was
  {
    var end := offset + NewSize(l, |s|);
    FieldUnique(l, s, data[offset..end], was[offset..end]);
    assert data == data[..offset] + data[offset..end] + data[end..];
    assert was == was[..offset] + was[offset..end] + was[end..];
  }

  /** The first i characters are in a payload of zeros, and nothing else has changed. */
  ghost predicate Copied(l: Layout, s: seq<byte>, i: nat, was: seq<byte>, data: seq<byte>, start: nat, end: nat)
    requires i <= |s|
  {
    && |data| == |was| && start <= end <= |was|
    && (forall p :: 0 <= p < |data| && !(start <= p < end) ==> data[p] == was[p])
    && (forall p :: start <= p < end ==> data[p] == CharOrZero(l, s, p - start, i))
  }

  /** Where plc_tag_set_string puts a character: neighbours change places when bytes are swapped. */
  method SwappedIndex(l: Layout, i: nat) returns (index: nat)
    ensures index == CharIndex(l, i)
  {
    XorFlag(i);
    index := if l.byteSwapped then (if i % 2 == 1 then i - 1 else i + 1) else i;
  }

  lemma IndexInside(l: Layout, i: nat, n: nat, room: nat)
    requires i < n <= room && (l.byteSwapped && n % 2 == 1 ==> n < room)
    ensures CharIndex(l, i) < room
  {
    XorFlag(i);
  }

  lemma CopyOne(l: Layout, s: seq<byte>, i: nat, was: seq<byte>, data: seq<byte>, start: nat, end: nat)
    requires i < |s| && Copied(l, s, i, was, data, start, end) && start + CharIndex(l, i) < end
    ensures Copied(l, s, i + 1, was, data[start + CharIndex(l, i) := s[i]], start, end)
  {
    var after := data[start + CharIndex(l, i) := s[i]];
    forall p | start <= p < end
      ensures after[p] == CharOrZero(l, s, p - start, i + 1)
    {
      CharOrZeroStep(l, s, p - start, i);
    }
  }

  /** A payload written over a field whose count word is in place makes the field whole. */
  lemma FieldWritten(l: Layout, s: seq<byte>, before: seq<byte>, after: seq<byte>, offset: nat)
    requires l.Usable() && l.Fits(|s|) && offset + NewSize(l, |s|) <= |before| && |after| == |before|
    requires l.countBytes <= NewSize(l, |s|)
    requires l.counted ==> Gather(before, offset, l.CountOrder()) == Bytes(|s|, l.countBytes)
    requires forall p :: 0 <= p < |after| && !(offset + l.countBytes <= p < offset + NewSize(l, |s|)) ==>
               after[p] == before[p]
    requires forall j :: 0 <= j < NewSize(l, |s|) - l.countBytes ==>
               after[offset + l.countBytes + j] == PayloadByte(l, s, j)
    ensures OnlyField(before, after, offset, NewSize(l, |s|))
    ensures FieldAt(l, s, after, offset)
  {
  }

  class Tag {
    var data: seq<byte>
    var hasData: bool
    const isBit: bool
    const bit: int
    const order16: seq<int>
    const order32: seq<int>
    const order64: seq<int>
    const stringsDefined: bool
    const layout: Layout
    const allowResize: bool
    const autoSyncWriteMs: int
    var dirty: bool
    var status: int

    ghost predicate Valid()
      reads this
    {
      && (!hasData ==> data == [])
      && Permutes(order16, 2) && Permutes(order32, 4) && Permutes(order64, 8)
      && (stringsDefined ==> layout.Usable())
    }

    function Order(n: nat): (o: seq<int>)
      requires n in {2, 4, 8}
    {
      if n == 2 then order16 else if n == 4 then order32 else order64
    }

    predicate FieldInside(offset: int, n: nat)
      reads this`data
    {
      offset >= 0 && offset + n <= |data|
    }

    predicate BitInside(p: int)
      reads this`data
    {
      p >= 0 && p / 8 < |data|
    }

    /** A bit tag has one bit, whatever the caller asks for. */
    function RealBit(offsetBit: int): int {
      if isBit then bit else offsetBit
    }

    /** plc_tag_set_bit_impl: every other bit of the buffer keeps its value. */
    method SetBit(offsetBit: int, v: bool) returns (rc: int)
      requires Valid()
      modifies this`data, this`dirty, this`status
      ensures Valid() && status == rc
      ensures rc == if !hasData then ERR_NO_DATA else if BitInside(RealBit(offsetBit)) then STATUS_OK
                else ERR_OUT_OF_BOUNDS
      ensures |data| == |old(data)|
      ensures rc == STATUS_OK ==> var at := if isBit then bit else offsetBit; BitWritten(old(data), data, at, v)
      ensures rc == STATUS_OK ==> BitAt(data, RealBit(offsetBit)) == v
      ensures rc == STATUS_OK ==> forall p: nat :: p / 8 < |data| && p != RealBit(offsetBit) ==>
                BitAt(data, p) == BitAt(old(data), p)
      ensures rc == STATUS_OK ==> dirty == (old(dirty) || autoSyncWriteMs > 0)
      ensures rc != STATUS_OK ==> data == old(data) && dirty == old(dirty)
    {
      if !hasData {
        status := ERR_NO_DATA;
        return ERR_NO_DATA;
      }
      var at := RealBit(offsetBit);
      if at < 0 || at / 8 >= |data| {
        status := ERR_OUT_OF_BOUNDS;
        return ERR_OUT_OF_BOUNDS;
      }
      if autoSyncWriteMs > 0 {
        dirty := true;
      }
      var b := ByteWithBit(data[at / 8], at % 8, v);
      data := data[at / 8 := b];
      OneBitWritten(old(data), data, at, v);
      BitChange(old(data)[at / 8], at % 8, v);
      status := STATUS_OK;
      rc := STATUS_OK;
    }

    /** plc_tag_get_bit_impl */
    method GetBit(offsetBit: int) returns (res: int)
      requires Valid()
      modifies this`status
      ensures hasData && BitInside(RealBit(offsetBit)) ==>
                && var at := if isBit then bit else offsetBit;
                && status == STATUS_OK && res == data[at / 8] / Pow2(at % 8) % 2
                && res == if BitAt(data, at) then 1 else 0
      ensures !(hasData && BitInside(RealBit(offsetBit))) ==>
                status == res == if hasData then ERR_OUT_OF_BOUNDS else ERR_NO_DATA
    {
      if !hasData {
        status := ERR_NO_DATA;
        return ERR_NO_DATA;
      }
      var at := RealBit(offsetBit);
      if at >= 0 && at / 8 < |data| {
        res := if BitAt(data, at) then 1 else 0;
        BitValue(data[at / 8], at % 8);
        status := STATUS_OK;
      } else {
        res := ERR_OUT_OF_BOUNDS;
        status := ERR_OUT_OF_BOUNDS;
      }
    }

    /** plc_tag_set_[u]int16/32/64: the bytes of the value in the order of the width, nothing else. */
    method SetInt(n: nat, signed: bool, offset: int, val: int) returns (rc: int)
      requires Valid() && n in {2, 4, 8} && InRange(val, n, signed)
      modifies this`data, this`dirty, this`status
      ensures Valid() && status == rc
      ensures !hasData ==> rc == if signed && n == 8 && !isBit then ERR_OUT_OF_BOUNDS else ERR_NO_DATA
      ensures hasData ==> rc == if (if isBit then BitInside(bit) else FieldInside(offset, n)) then STATUS_OK
                else ERR_OUT_OF_BOUNDS
      ensures rc == STATUS_OK && !isBit ==>
                && OnlyField(old(data), data, offset, n)
                && (n == 2 ==> Stored(data, offset, order16, val % 0x1_0000))
                && (n == 4 ==> Stored(data, offset, order32, val % 0x1_0000_0000))
                && (n == 8 ==> Stored(data, offset, order64, val % 0x1_0000_0000_0000_0000))
                && Gather(data, offset, Order(n)) == Bytes(ToUnsigned(val, n), n)
      ensures rc == STATUS_OK && isBit ==>
                && |data| == |old(data)| && BitAt(data, bit) == (val != 0)
                && forall p: nat :: p / 8 < |data| && p != bit ==> BitAt(data, p) == BitAt(old(data), p)
      ensures rc == STATUS_OK ==> dirty == (old(dirty) || autoSyncWriteMs > 0)
      ensures rc != STATUS_OK ==> data == old(data) && dirty == old(dirty)
    {
      // plc_tag_set_int64 alone goes on after finding no data.
      if !hasData && !(signed && n == 8) {
        status := ERR_NO_DATA;
        return ERR_NO_DATA;
      }
      if isBit {
        rc := SetBit(0, val != 0);
        return;
      }
      if !(offset >= 0 && offset + n <= |data|) {
        status := ERR_OUT_OF_BOUNDS;
        return ERR_OUT_OF_BOUNDS;
      }
      if autoSyncWriteMs > 0 {
        dirty := true;
      }
      StoreBytes(offset, Order(n), ToUnsigned(val, n));
      StoredBytes(data, offset, Order(n), ToUnsigned(val, n));
      Pow256Values();
      status := STATUS_OK;
      rc := STATUS_OK;
    }

    /** The bytes of a number through a byte order; integers and count words are stored alike. */
    method StoreBytes(offset: nat, order: seq<int>, u: nat)
      requires Permutes(order, |order|) && FieldInside(offset, |order|)
      modifies this`data
      ensures OnlyField(old(data), data, offset, |order|) && Gather(data, offset, order) == Bytes(u, |order|)
    {
      var k, n := 0, |order|;
      while k < n
        invariant 0 <= k <= n && OnlyField(old(data), data, offset, n)
        invariant forall i :: 0 <= i < k ==> data[offset + order[i]] == ByteAt(u, i)
      {
        var before := data;
        data := data[offset + order[k] := ByteAt(u, k)];
        assert data[..offset] == before[..offset];
        assert data[offset + n..] == before[offset + n..];
        k := k + 1;
      }
    }

    /** plc_tag_get_[u]int16/32/64, with the sentinel each returns when there is nothing to read. */
    method GetInt(n: nat, signed: bool, offset: int) returns (res: int)
      requires Valid() && n in {2, 4, 8}
      modifies this`status
      ensures !hasData ==> status == ERR_NO_DATA && res == if signed then ERR_NO_DATA else Pow256(n) - 1
      ensures hasData && !isBit && FieldInside(offset, n) ==>
                && status == STATUS_OK && res == LoadInt(data, offset, Order(n), signed)
                && (n == 2 ==> res == Signed(Weighted(data, offset, order16, 0), 2, signed))
                && (n == 4 ==> res == Signed(Weighted(data, offset, order32, 0), 4, signed))
                && (n == 8 ==> res == Signed(Weighted(data, offset, order64, 0), 8, signed))
      ensures hasData && isBit && BitInside(bit) ==> status == STATUS_OK && res == if BitAt(data, bit) then 1 else 0
      ensures hasData && !(if isBit then BitInside(bit) else FieldInside(offset, n)) ==>
                status == ERR_OUT_OF_BOUNDS && res == if signed then -(Pow256(n) / 2 as int) else Pow256(n) - 1
    {
      if !hasData {
        status := ERR_NO_DATA;
        return if signed then ERR_NO_DATA else Pow256(n) - 1;
      }
      res := if signed then -(Pow256(n) / 2 as int) else Pow256(n) - 1;
      if !isBit {
        if offset >= 0 && offset + n <= |data| {
          res := LoadInt(data, offset, Order(n), signed);
          LoadIsWeighted(data, offset, Order(n), signed);
          status := STATUS_OK;
        } else {
          status := ERR_OUT_OF_BOUNDS;
        }
      } else {
        var rc := GetBit(0);
        if rc >= 0 {
          res := rc;
        }
      }
    }

    /** Every value of the type survives a set and a get at the same offset. */
    method SetThenGetInt(n: nat, signed: bool, offset: int, val: int) returns (rc: int, res: int)
      requires Valid() && n in {2, 4, 8} && InRange(val, n, signed)
      modifies this`data, this`dirty, this`status
      ensures rc == STATUS_OK && !isBit ==> res == val && offset >= 0 && OnlyField(old(data), data, offset, n)
      ensures rc == STATUS_OK && isBit ==> res == if val != 0 then 1 else 0
    {
      rc := SetInt(n, signed, offset, val);
      res := GetInt(n, signed, offset);
      if rc == STATUS_OK && !isBit {
        LoadOfStored(data, offset, Order(n), val, signed);
      }
    }

    /** get_string_length_unsafe */
    method GetStringLength(offset: nat) returns (n: int)
      requires layout.Usable() && CountReadable(layout, data, offset)
      ensures n == StoredLength(layout, data, offset)
      ensures layout.counted && layout.countBytes == 1 ==> n == data[offset]
      ensures layout.counted && layout.countBytes == 2 ==>
                var u := Word(data[offset + layout.order16[0]], data[offset + layout.order16[1]], 0, 0);
                n == if u >= 0x8000 then u - 0x1_0000 else u
      ensures layout.counted && layout.countBytes == 4 ==>
                var u := Word(data[offset + layout.order32[0]], data[offset + layout.order32[1]],
                              data[offset + layout.order32[2]], data[offset + layout.order32[3]]);
                n == if u >= 0x8000_0000 then u - 0x1_0000_0000 else u
    {
      if layout.counted {
        n := LoadInt(data, offset, layout.CountOrder(), layout.countBytes > 1);
        CountedLength(layout, data, offset);
      } else {
        n := 0;
        var i := offset;
        while i < |data|
          invariant n == i - offset && i >= offset
          invariant FirstZero(data, offset) == n + FirstZero(data, i)
        {
          XorFlag(n);
          if data[CharIndex(layout, n) + offset] == 0 {
            break;
          }
          n := n + 1;
          i := i + 1;
        }
      }
    }

    /** resize_tag_buffer_unsafe: what realloc adds is unspecified. */
    method ResizeBuffer(newSize: nat, allocOk: bool) returns (rc: int)
      modifies this`data, this`status
      ensures rc == if allocOk then STATUS_OK else ERR_NO_MEM
      ensures !allocOk ==> data == old(data) && status == ERR_NO_MEM
      ensures allocOk ==> |data| == newSize && status == old(status)
      ensures allocOk ==> forall i :: 0 <= i < newSize && i < |old(data)| ==> data[i] == old(data)[i]
    {
      if !allocOk {
        status := ERR_NO_MEM;
        return ERR_NO_MEM;
      }
      if newSize <= |data| {
        data := data[..newSize];
      } else {
        assert |Zeros(newSize - |data|)| == newSize - |data|;
        var extra: seq<byte> :| |extra| == newSize - |data|;
        data := data + extra;
      }
      rc := STATUS_OK;
    }

    /** resize_tag_buffer_at_offset_unsafe: the bytes from oldSplit on move to newSplit. */
    method ResizeAtOffset(oldSplit: int, newSplit: int, allocOk: bool) returns (rc: int)
      modifies this`data, this`status
      ensures rc == if !(0 <= oldSplit <= |old(data)| && newSplit >= 0) then ERR_OUT_OF_BOUNDS
                    else if oldSplit != newSplit && !allocOk then ERR_NO_MEM else STATUS_OK
      ensures rc == STATUS_OK ==>
                && |data| == |old(data)| + newSplit - oldSplit
                && data[..Min(oldSplit, newSplit)] == old(data)[..Min(oldSplit, newSplit)]
                && data[newSplit..] == old(data)[oldSplit..]
      ensures rc == ERR_NO_MEM ==> data == Stranded(old(data), oldSplit, newSplit)
      ensures rc == ERR_OUT_OF_BOUNDS ==> data == old(data)
      ensures status == if rc == ERR_NO_MEM then ERR_NO_MEM else old(status)
    {
      var size := |data|;
      if oldSplit < 0 || oldSplit > size || newSplit < 0 {
        return ERR_OUT_OF_BOUNDS;
      }
      if newSplit == oldSplit {
        return STATUS_OK;
      }
      if newSplit < oldSplit {
        var moved := size - oldSplit;
        data := Stranded(data, oldSplit, newSplit);
        assert data[newSplit..newSplit + moved] == old(data)[oldSplit..];
        rc := ResizeBuffer(size - (oldSplit - newSplit), allocOk);
      } else {
        rc := ResizeBuffer(size + (newSplit - oldSplit), allocOk);
        if rc != STATUS_OK {
          return;
        }
        data := data[..newSplit] + data[oldSplit..size];
      }
    }

    /** Zeroes the field, then writes the count word through its byte order. */
    method WriteCount(offset: nat, n: nat)
      requires layout.Usable() && layout.Fits(n) && FieldInside(offset, NewSize(layout, n))
      modifies this`data
      ensures OnlyField(old(data), data, offset, NewSize(layout, n))
      ensures layout.counted ==> Gather(data, offset, layout.CountOrder()) == Bytes(n, layout.countBytes)
      ensures forall p :: offset + layout.countBytes <= p < offset + NewSize(layout, n) ==> data[p] == 0
    {
      NewSizeHolds(layout, n);
      ZeroField(offset, NewSize(layout, n));
      if layout.counted {
        ghost var zeroed := data;
        StoreBytes(offset, layout.CountOrder(), n);
        WiderField(zeroed, data, offset, layout.countBytes, NewSize(layout, n));
      }
    }

    method ZeroField(offset: nat, n: nat)
      requires FieldInside(offset, n)
      modifies this`data
      ensures data == old(data)[..offset] + Zeros(n) + old(data)[offset + n..]
    {
      var i := offset;
      while i < offset + n
        invariant offset <= i <= offset + n
        invariant data == old(data)[..offset] + Zeros(i - offset) + old(data)[i..]
      {
        data := data[i := 0];
        i := i + 1;
      }
    }

    /** The copy loop of plc_tag_set_string over a payload of zeros.
        The source's out-of-bounds exit cannot be reached: every index lies in the field. */
    method CopyChars(start: nat, s: seq<byte>, ghost end: nat)
      requires start + |s| <= end <= |data| && (layout.byteSwapped && |s| % 2 == 1 ==> start + |s| < end)
      requires forall p :: start <= p < end ==> data[p] == 0
      modifies this`data
      ensures Copied(layout, s, |s|, old(data), data, start, end)
    {
      var i := 0;
      while i < |s|
        invariant 0 <= i <= |s| && Copied(layout, s, i, old(data), data, start, end)
      {
        var index := SwappedIndex(layout, i);
        IndexInside(layout, i, |s|, end - start);
        CopyOne(layout, s, i, old(data), data, start, end);
        data := data[start + index := s[i]];
        i := i + 1;
      }
    }

    /** Writes the characters and the terminator into a field whose payload is zero. */
    method WriteChars(offset: nat, s: seq<byte>)
      requires layout.Usable() && layout.Fits(|s|) && FieldInside(offset, NewSize(layout, |s|))
      requires layout.counted ==> Gather(data, offset, layout.CountOrder()) == Bytes(|s|, layout.countBytes)
      requires forall p :: offset + layout.countBytes <= p < offset + NewSize(layout, |s|) ==> data[p] == 0
      modifies this`data
      ensures OnlyField(old(data), data, offset, NewSize(layout, |s|))
      ensures FieldAt(layout, s, data, offset) && LaidOut(layout, s, data, offset)
    {
      NewSizeHolds(layout, |s|);
      var start := offset + layout.countBytes;
      ghost var end := offset + NewSize(layout, |s|);
      CopyChars(start, s, end);
      ghost var copied := data;
      if layout.zeroTerminated {
        data := data[start + |s| := 0];
      }
      forall j | 0 <= j < end - start
        ensures data[offset + layout.countBytes + j] == PayloadByte(layout, s, j)
      {
        assert copied[start + j] == CharOrZero(layout, s, j, |s|);
      }
      FieldWritten(layout, s, old(data), data, offset);
      FieldIsLaidOut(layout, s, data, offset);
    }

    /** The part of plc_tag_set_string after the resize: a length too large for the count word
        leaves the field zeroed. */
    method WriteField(offset: nat, s: seq<byte>) returns (rc: int)
      requires layout.Usable() && FieldInside(offset, NewSize(layout, |s|)) && |s| < 0x8000_0000
      requires layout.maxCapacity > 0 ==> |s| <= layout.maxCapacity
      modifies this`data, this`status
      ensures status == rc == if layout.counted && |s| >= Pow256(layout.countBytes) then ERR_TOO_LARGE else STATUS_OK
      ensures OnlyField(old(data), data, offset, NewSize(layout, |s|))
      ensures rc == STATUS_OK ==> layout.Fits(|s|) && FieldAt(layout, s, data, offset)
      ensures rc != STATUS_OK ==>
                data == old(data)[..offset] + Zeros(NewSize(layout, |s|)) + old(data)[offset + NewSize(layout, |s|)..]
    {
      var size := NewSize(layout, |s|);
      if layout.counted && |s| >= Pow256(layout.countBytes) {
        ZeroField(offset, size);
        status := ERR_TOO_LARGE;
        return ERR_TOO_LARGE;
      }
      WriteCount(offset, |s|);
      WriteChars(offset, s);
      status := STATUS_OK;
      rc := STATUS_OK;
    }

    /** The resize of a field: what lies around it is kept. */
    method MakeRoom(offset: nat, held: nat, size: nat, allocOk: bool) returns (rc: int)
      modifies this`data, this`status
      ensures rc == if offset + held > |old(data)| then ERR_OUT_OF_BOUNDS
                    else if held != size && !allocOk then ERR_NO_MEM else STATUS_OK
      ensures rc == STATUS_OK ==>
                && |data| == |old(data)| + size - held
                && data[..offset] == old(data)[..offset] && data[offset + size..] == old(data)[offset + held..]
      ensures rc == ERR_NO_MEM ==> data == Stranded(old(data), offset + held, offset + size)
      ensures rc == ERR_OUT_OF_BOUNDS ==> data == old(data)
      ensures status == if rc == ERR_NO_MEM then ERR_NO_MEM else old(status)
    {
      rc := ResizeAtOffset(offset + held, offset + size, allocOk);
      if rc == STATUS_OK {
        ShorterPrefix(data, old(data), Min(offset + held, offset + size), offset);
      }
    }

    /** The resize and the writing of plc_tag_set_string. */
    method ReplaceField(offset: nat, held: nat, s: seq<byte>, allocOk: bool) returns (rc: int)
      requires layout.Usable() && |s| < 0x8000_0000 && (layout.maxCapacity > 0 ==> |s| <= layout.maxCapacity)
      requires allowResize || NewSize(layout, |s|) == held
      modifies this`data, this`status
      ensures rc == SetOutcome(layout, allowResize, allocOk, |old(data)|, offset, held, |s|)
      ensures rc == ERR_OUT_OF_BOUNDS <==> offset + held > |old(data)|
      ensures rc == STATUS_OK ==> StringSet(layout, s, old(data), data, offset, held)
      ensures rc == ERR_OUT_OF_BOUNDS ==> data == old(data)
      ensures rc in {ERR_NO_MEM, ERR_TOO_LARGE} ==> data == SetFailed(layout, old(data), offset, held, |s|, rc)
      ensures status == if rc == ERR_OUT_OF_BOUNDS then old(status) else rc
    {
      var size := NewSize(layout, |s|);
      rc := MakeRoom(offset, held, size, allocOk);
      if rc != STATUS_OK {
        return;
      }
      rc := WriteField(offset, s);
    }

    /** plc_tag_set_string: the outcome and the buffer for every input. */
    method SetString(offset: nat, s: seq<byte>, allocOk: bool) returns (rc: int)
      requires Valid() && IsCString(s) && |s| < 0x8000_0000
      requires stringsDefined && !isBit && !layout.fixedLength ==> CountReadable(layout, data, offset)
      modifies this`data, this`dirty, this`status
      ensures Valid()
      ensures !stringsDefined || isBit ==> rc == ERR_UNSUPPORTED && data == old(data) && status == rc
      ensures stringsDefined && !isBit ==>
                && var held := OldSize(layout, old(data), offset);
                && var tooLong := layout.maxCapacity > 0 && |s| > layout.maxCapacity;
                && rc == SetOutcome(layout, allowResize, allocOk, |old(data)|, offset, held, |s|)
                && (tooLong || held < 0 || rc in {ERR_NOT_ALLOWED, ERR_OUT_OF_BOUNDS} ==> data == old(data))
                && (!tooLong && held >= 0 && rc in {ERR_NO_MEM, ERR_TOO_LARGE} ==>
                      offset + held <= |old(data)| && data == SetFailed(layout, old(data), offset, held, |s|, rc))
                && (rc == STATUS_OK ==>
                      && 0 <= held <= |old(data)| - offset && StringSet(layout, s, old(data), data, offset, held)
                      && LaidOut(layout, s, data, offset))
                && var early := !tooLong && (held < 0 || rc in {ERR_NOT_ALLOWED, ERR_OUT_OF_BOUNDS});
                && status == if early then old(status) else rc
      ensures dirty == (old(dirty) || (rc == STATUS_OK && autoSyncWriteMs > 0))
    {
      if !stringsDefined || isBit {
        status := ERR_UNSUPPORTED;
        return ERR_UNSUPPORTED;
      }
      if layout.maxCapacity > 0 && |s| > layout.maxCapacity {
        status := ERR_TOO_LARGE;
        return ERR_TOO_LARGE;
      }
      var held := GetTotalLength(offset);
      if held < 0 {
        return held;
      }
      if !allowResize && NewSize(layout, |s|) != held {
        return ERR_NOT_ALLOWED;
      }
      rc := ReplaceField(offset, held, s, allocOk);
      if rc == STATUS_OK {
        FieldIsLaidOut(layout, s, data, offset);
        if autoSyncWriteMs > 0 {
          dirty := true;
        }
      }
    }

    /** get_string_total_length_unsafe */
    method GetTotalLength(offset: nat) returns (n: int)
      requires layout.Usable() && (layout.fixedLength || CountReadable(layout, data, offset))
      ensures n == OldSize(layout, data, offset)
      ensures var room := if layout.fixedLength then layout.maxCapacity else StoredLength(layout, data, offset);
              n == layout.countBytes + room + (if layout.zeroTerminated then 1 else 0) + layout.padBytes
      ensures data == [] && n >= 0 ==> n > 0
    {
      var stored := 0;
      if !layout.fixedLength {
        stored := GetStringLength(offset);
      }
      n := layout.countBytes + (if layout.fixedLength then layout.maxCapacity else stored)
        + layout.Terminator() + layout.padBytes;
    }

    /** plc_tag_get_string: the stored string cut to the buffer, the rest of the buffer zero. */
    method GetString(offset: nat, length: nat) returns (rc: int, buffer: seq<byte>)
      requires Valid()
      requires stringsDefined && hasData && !isBit ==> CountReadable(layout, data, offset)
      modifies this`status
      ensures |buffer| == length
      ensures !stringsDefined || !hasData || isBit ==>
                status == rc == if stringsDefined && !hasData then ERR_NO_DATA else ERR_UNSUPPORTED
      ensures stringsDefined && hasData && !isBit ==>
                && var stored := StoredLength(layout, data, offset);
                && var n := if stored < 0 then 0 else if length < stored then length else stored;
                && (rc == STATUS_OK <==>
                      && offset + layout.countBytes + Min(length, stored) <= |data|
                      && forall i :: 0 <= i < n ==> offset + layout.countBytes + CharIndex(layout, i) < |data|)
                && (rc == STATUS_OK <==>
                      && offset + layout.countBytes + Min(length, stored) <= |data|
                      && (layout.byteSwapped && n % 2 == 1 ==> offset + layout.countBytes + n < |data|))
                && (rc == STATUS_OK ==> PairsAt(layout, buffer[..n], n, data, offset + layout.countBytes))
                && (rc == STATUS_OK ==> buffer == Decoded(layout, data, offset, n) + Zeros(length - n))
                && rc in {STATUS_OK, ERR_OUT_OF_BOUNDS}
                && status == if rc == STATUS_OK || offset + layout.countBytes + Min(length, stored) > |data| then rc
                             else old(status)
    {
      buffer := Zeros(length);
      if !stringsDefined {
        status := ERR_UNSUPPORTED;
        return ERR_UNSUPPORTED, buffer;
      }
      if !hasData {
        status := ERR_NO_DATA;
        return ERR_NO_DATA, buffer;
      }
      if isBit {
        status := ERR_UNSUPPORTED;
        return ERR_UNSUPPORTED, buffer;
      }
      var stored := GetStringLength(offset);
      var max := if length < stored then length else stored;
      if offset + layout.countBytes + max > |data| {
        status := ERR_OUT_OF_BOUNDS;
        return ERR_OUT_OF_BOUNDS, buffer;
      }
      var ok;
      ok, buffer := ReadChars(offset, max, length);
      if !ok {
        return ERR_OUT_OF_BOUNDS, buffer;
      }
      status := STATUS_OK;
      rc := STATUS_OK;
    }

    /** The same with the places of the characters written out. */
    method ReadChars(offset: nat, max: int, length: nat) returns (ok: bool, buffer: seq<byte>)
      requires max <= length && offset + layout.countBytes + max <= |data|
      ensures |buffer| == length
      ensures ok <==> forall i :: 0 <= i < max ==> offset + layout.countBytes + CharIndex(layout, i) < |data|
      ensures var n := if max < 0 then 0 else max;
              && (ok <==> (layout.byteSwapped && n % 2 == 1 ==> offset + layout.countBytes + n < |data|))
              && (ok ==> PairsAt(layout, buffer[..n], n, data, offset + layout.countBytes))
              && (ok ==> buffer == Decoded(layout, data, offset, n) + Zeros(length - n))
    {
      ok, buffer := CopyOut(offset, max, length);
      if max >= 0 {
        ReadableTo(layout, offset + layout.countBytes, max, |data|);
        if ok {
          DecodedPairs(layout, data, offset, max);
          assert buffer[..max] == Decoded(layout, data, offset, max);
        }
      }
    }

    /** The copy loop of plc_tag_get_string into a buffer of zeros; a length below zero copies nothing. */
    method CopyOut(offset: nat, max: int, length: nat) returns (ok: bool, buffer: seq<byte>)
      requires max <= length && offset + layout.countBytes + max <= |data|
      ensures |buffer| == length
      ensures ok <==> forall i :: 0 <= i < max ==> offset + layout.countBytes + CharIndex(layout, i) < |data|
      ensures ok ==> var n := if max < 0 then 0 else max;
                     buffer == Decoded(layout, data, offset, n) + Zeros(length - n)
    {
      buffer := Zeros(length);
      var i := 0;
      while i < max && i < |data|
        invariant 0 <= i && (max >= 0 ==> i <= max) && (max < 0 ==> i == 0)
        invariant forall j :: 0 <= j < i ==> offset + layout.countBytes + CharIndex(layout, j) < |data|
        invariant buffer == Decoded(layout, data, offset, i) + Zeros(length - i)
      {
        var index := CharIndex(layout, i) + offset + layout.countBytes;
        if index >= |data| {
          return false, buffer;
        }
        buffer := buffer[i := data[index]];
        i := i + 1;
      }
      ok := true;
    }

    /** What a successful set wrote is what every later get and length query of the field return,
        exactly when the length fits a signed count and the terminator spared the last character. */
    method SetThenGetString(offset: nat, s: seq<byte>, allocOk: bool, length: nat)
      returns (rc: int, got: int, n: int, buffer: seq<byte>)
      requires Valid() && hasData && IsCString(s) && |s| <= length < 0x8000_0000
      requires stringsDefined && !isBit && !layout.fixedLength ==> CountReadable(layout, data, offset)
      modifies this`data, this`dirty, this`status
      ensures rc == STATUS_OK ==> got == STATUS_OK
      ensures rc == STATUS_OK ==> (n == |s| <==> (layout.countBytes == 2 ==> |s| <= 32767))
      ensures rc == STATUS_OK ==>
                (buffer == s + Zeros(length - |s|) <==>
                   (layout.countBytes == 2 ==> |s| <= 32767) && !Clobbered(layout, |s|))
    {
      rc := SetString(offset, s, allocOk);
      got, n, buffer := rc, 0, [];
      if rc != STATUS_OK {
        return;
      }
      LengthOfField(layout, s, data, offset);
      CharsOfField(layout, s, data, offset, |s|);
      FieldBytes(layout, s, data, offset);
      n := GetStringLength(offset);
      got, buffer := GetString(offset, length);
      if layout.countBytes == 2 && |s| > 32767 {
        assert buffer == Zeros(length);
        assert (s + Zeros(length - |s|))[0] != 0;
      } else {
        assert buffer[..|s|] == Decoded(layout, data, offset, |s|);
        assert (s + Zeros(length - |s|))[..|s|] == s;
      }
    }

    /** Setting the string a field already holds: the field is rewritten byte for byte, and the
        buffer is unchanged exactly when the measured size of the field is its real size. */
    method SetStringAgain(offset: nat, s: seq<byte>, allocOk: bool) returns (rc: int)
      requires Valid() && stringsDefined && !isBit && IsCString(s)
      requires layout.Fits(|s|) && FieldAt(layout, s, data, offset)
      requires layout.countBytes == 2 ==> |s| <= 32767
      modifies this`data, this`dirty, this`status
      ensures rc == STATUS_OK ==> |data| == |old(data)| + SizeDrift(layout, |s|)
      ensures rc == STATUS_OK ==> (data == old(data) <==> SizeDrift(layout, |s|) == 0)
    {
      SizeOfField(layout, s, data, offset);
      rc := SetString(offset, s, allocOk);
      if rc == STATUS_OK && SizeDrift(layout, |s|) == 0 {
        SetOverItself(layout, s, old(data), data, offset);
      }
    }
  }
}
