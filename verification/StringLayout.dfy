/** How a string lies in a tag buffer, as declarative predicates, and what the readers of
    such a field recover from it. */
module StringLayout {
  import opened Bits
  import opened Status
  import opened ByteOrder

  /** The string part of tag_byte_order_s, with the two integer orders a count word uses. */
  datatype Layout = Layout(
    counted: bool, fixedLength: bool, zeroTerminated: bool, byteSwapped: bool,
    countBytes: nat, maxCapacity: nat, totalLength: nat, padBytes: nat,
    order16: seq<int>, order32: seq<int>)
  {
    function Terminator(): nat {
      if zeroTerminated then 1 else 0
    }

    /** cw + capacity + terminator + padding, the sum set_tag_byte_order checks. */
    function PartsLength(): nat {
      countBytes + maxCapacity + Terminator() + padBytes
    }

    /** A count word of 1, 2 or 4 bytes, or a plain zero-terminated string; a fixed field
        is long enough for its parts and, when swapped, holds whole byte pairs. */
    predicate Usable() {
      && Permutes(order16, 2) && Permutes(order32, 4)
      && (counted ==> countBytes in {1, 2, 4})
      && (!counted ==> zeroTerminated && countBytes == 0 && !byteSwapped)
      && (fixedLength ==> maxCapacity > 0 && PartsLength() <= totalLength)
      && (fixedLength && byteSwapped ==> maxCapacity % 2 == 0)
    }

    function CountOrder(): (order: seq<int>)
      requires Usable()
      ensures |order| == countBytes && Permutes(order, countBytes)
    {
      if countBytes == 0 then [] else if countBytes == 1 then [0] else if countBytes == 2 then order16 else order32
    }

    /** The length can be written in the count word, and capacity limits it. */
    predicate Fits(n: nat) {
      && (maxCapacity > 0 ==> n <= maxCapacity)
      && (counted ==> n < Pow256(countBytes))
      && n < 0x8000_0000
    }
  }

  /** A C string: bytes without NUL. */
  predicate IsCString(s: seq<byte>) {
    forall i :: 0 <= i < |s| ==> s[i] != 0
  }

  /** The index a character of position i is stored at. */
  function CharIndex(l: Layout, i: nat): nat {
    Xor(i, if l.byteSwapped then 1 else 0)
  }

  /** get_new_string_total_length_unsafe for usable layouts. */
  function NewSize(l: Layout, n: nat): (size: nat)
    ensures l.fixedLength ==> size == l.totalLength
    ensures !l.fixedLength ==> var pairs := if l.byteSwapped && n % 2 == 1 then n + 1 else n;
              size == l.countBytes + pairs + (if l.zeroTerminated then 1 else 0) + l.padBytes
  {
    if l.fixedLength then l.totalLength
    else n + l.countBytes + l.Terminator() + l.padBytes + (if l.byteSwapped then n % 2 else 0)
  }

  lemma NewSizeHolds(l: Layout, n: nat)
    requires l.Usable() && l.Fits(n)
    ensures l.countBytes + n + l.Terminator() <= NewSize(l, n)
    ensures l.byteSwapped && n % 2 == 1 ==> l.countBytes + n + 1 <= NewSize(l, n)
  {
  }

  /** The byte expected at position j after the count word. */
  function PayloadByte(l: Layout, s: seq<byte>, j: nat): byte {
    if l.zeroTerminated && j == |s| then 0
    else if CharIndex(l, j) < |s| then s[CharIndex(l, j)] else 0
  }

  /** f is the whole field of the string s: count word through its byte order, characters
      swapped pairwise if the layout says so, zeros everywhere else. */
  ghost predicate HoldsString(l: Layout, s: seq<byte>, f: seq<byte>)
    requires l.Usable() && l.Fits(|s|)
  {
    NewSizeHolds(l, |s|);
    && |f| == NewSize(l, |s|)
    && (l.counted ==> Gather(f, 0, l.CountOrder()) == Bytes(|s|, l.countBytes))
    && (forall j :: 0 <= j < |f| - l.countBytes ==> f[l.countBytes + j] == PayloadByte(l, s, j))
  }

  /** The description leaves no freedom: a string has one field. */
  lemma FieldUnique(l: Layout, s: seq<byte>, f: seq<byte>, g: seq<byte>)
    requires l.Usable() && l.Fits(|s|)
    requires HoldsString(l, s, f) && HoldsString(l, s, g)
    ensures f == g
  {
    var c := l.countBytes;
    NewSizeHolds(l, |s|);
    forall p | c <= p < |f|
      ensures f[p] == g[p]
    {
      var j := p - c;
      assert f[c + j] == PayloadByte(l, s, j) && g[c + j] == PayloadByte(l, s, j);
    }
    if l.counted {
      GatherDetermines(f, g, 0, l.CountOrder());
    }
  }

  /** Number of bytes from p up to the first zero or the end of the buffer. */
  function FirstZero(data: seq<byte>, p: nat): nat
    decreases |data| - p
  {
    if p >= |data| || data[p] == 0 then 0 else 1 + FirstZero(data, p + 1)
  }

  lemma {:induction false} FirstZeroIs(data: seq<byte>, p: nat, n: nat)
    requires p + n < |data| && data[p + n] == 0
    requires forall i :: p <= i < p + n ==> data[i] != 0
    ensures FirstZero(data, p) == n
    decreases n
  {
    if n > 0 {
      FirstZeroIs(data, p + 1, n - 1);
    }
  }

  /** get_string_length_unsafe reads the count word unchecked, so it must lie in the buffer. */
  predicate CountReadable(l: Layout, data: seq<byte>, offset: nat) {
    l.counted ==> offset + l.countBytes <= |data|
  }

  /** get_string_length_unsafe: a 1-byte count is unsigned, wider ones are sign-extended. */
  function StoredLength(l: Layout, data: seq<byte>, offset: nat): int
    requires l.Usable() && CountReadable(l, data, offset)
  {
    if l.counted then LoadInt(data, offset, l.CountOrder(), l.countBytes > 1)
    else FirstZero(data, offset)
  }

  /** get_string_total_length_unsafe. */
  function OldSize(l: Layout, data: seq<byte>, offset: nat): int
    requires l.Usable() && (l.fixedLength || CountReadable(l, data, offset))
  {
    l.countBytes + (if l.fixedLength then l.maxCapacity else StoredLength(l, data, offset))
      + l.Terminator() + l.padBytes
  }

  /** data carries the field of s at offset. */
  ghost predicate FieldAt(l: Layout, s: seq<byte>, data: seq<byte>, offset: nat)
    requires l.Usable() && l.Fits(|s|)
  {
    && offset + NewSize(l, |s|) <= |data|
    && HoldsString(l, s, data[offset..offset + NewSize(l, |s|)])
  }

  lemma FieldBytes(l: Layout, s: seq<byte>, data: seq<byte>, offset: nat)
    requires l.Usable() && l.Fits(|s|) && FieldAt(l, s, data, offset)
    ensures offset + l.countBytes + |s| + l.Terminator() <= |data|
    ensures l.counted ==> Gather(data, offset, l.CountOrder()) == Bytes(|s|, l.countBytes)
    ensures forall j :: 0 <= j < NewSize(l, |s|) - l.countBytes ==>
              data[offset + l.countBytes + j] == PayloadByte(l, s, j)
  {
  }

  /** Characters 2k and 2k+1 lie where the layout puts them: in each other's place when swapped. */
  predicate PairAt(l: Layout, s: seq<byte>, data: seq<byte>, start: nat, k: nat) {
    && 2 * k + 1 < |s| && start + 2 * k + 1 < |data|
    && if l.byteSwapped then data[start + 2 * k] == s[2 * k + 1] && data[start + 2 * k + 1] == s[2 * k]
       else data[start + 2 * k] == s[2 * k] && data[start + 2 * k + 1] == s[2 * k + 1]
  }

  /** The first n characters in pairs, and a last one without a partner. */
  ghost predicate PairsAt(l: Layout, s: seq<byte>, n: nat, data: seq<byte>, start: nat) {
    && n <= |s| && (forall k: nat :: 2 * k + 1 < n ==> PairAt(l, s, data, start, k))
    && (n % 2 == 1 ==> LastAt(l, s, n, data, start))
  }

  predicate LastAt(l: Layout, s: seq<byte>, n: nat, data: seq<byte>, start: nat) {
    && 0 < n <= |s| && var p := start + (if l.byteSwapped then n else n - 1);
    p < |data| && data[p] == s[n - 1]
  }

  /** A number in a count word, written out for each of its widths. */
  predicate CountWord(l: Layout, data: seq<byte>, offset: nat, n: nat) {
    && (l.countBytes == 1 ==> offset < |data| && data[offset] == n)
    && (l.countBytes == 2 ==> Stored2(data, offset, l.order16, n))
    && (l.countBytes == 4 ==> Stored4(data, offset, l.order32, n))
  }

  predicate Stored2(data: seq<byte>, offset: nat, order: seq<int>, n: nat) {
    && Permutes(order, 2) && offset + 2 <= |data|
    && data[offset + order[0]] == n % 0x100 && data[offset + order[1]] == n / 0x100 % 0x100
  }

  predicate Stored4(data: seq<byte>, offset: nat, order: seq<int>, n: nat) {
    && Permutes(order, 4) && offset + 4 <= |data|
    && data[offset + order[0]] == n % 0x100 && data[offset + order[1]] == n / 0x100 % 0x100
    && data[offset + order[2]] == n / 0x1_0000 % 0x100 && data[offset + order[3]] == n / 0x100_0000 % 0x100
  }

  /** The field of s byte by byte: count word, characters in their places, a terminator, zeros. */
  ghost predicate LaidOut(l: Layout, s: seq<byte>, data: seq<byte>, offset: nat) {
    && var start := offset + l.countBytes;
    && start + |s| <= offset + NewSize(l, |s|) <= |data|
    && CountWord(l, data, offset, |s|)
    && PairsAt(l, s, if Clobbered(l, |s|) then |s| - 1 else |s|, data, start)
    && (l.zeroTerminated ==> start + |s| < |data| && data[start + |s|] == 0)
    && var end := start + |s| + (if l.byteSwapped then |s| % 2 else 0);
    && (forall p :: end <= p < offset + NewSize(l, |s|) ==> data[p] == 0)
  }

  lemma FieldPair(l: Layout, s: seq<byte>, data: seq<byte>, offset: nat, k: nat)
    requires l.Usable() && l.Fits(|s|) && FieldAt(l, s, data, offset) && 2 * k + 1 < |s|
    ensures PairAt(l, s, data, offset + l.countBytes, k)
  {
    FieldBytes(l, s, data, offset);
    NewSizeHolds(l, |s|);
    XorFlag(2 * k);
    XorFlag(2 * k + 1);
    assert data[offset + l.countBytes + 2 * k] == PayloadByte(l, s, 2 * k);
    assert data[offset + l.countBytes + (2 * k + 1)] == PayloadByte(l, s, 2 * k + 1);
  }

  lemma FieldEnd(l: Layout, s: seq<byte>, data: seq<byte>, offset: nat)
    requires l.Usable() && l.Fits(|s|) && FieldAt(l, s, data, offset)
    ensures |s| % 2 == 1 && !Clobbered(l, |s|) ==> LastAt(l, s, |s|, data, offset + l.countBytes)
    ensures l.zeroTerminated ==>
              offset + l.countBytes + |s| < |data| && data[offset + l.countBytes + |s|] == 0
  {
    FieldBytes(l, s, data, offset);
    NewSizeHolds(l, |s|);
    if |s| % 2 == 1 {
      var j := if l.byteSwapped then |s| else |s| - 1;
      XorFlag(j);
      assert data[offset + l.countBytes + j] == PayloadByte(l, s, j);
    }
    if l.zeroTerminated {
      assert data[offset + l.countBytes + |s|] == PayloadByte(l, s, |s|);
    }
  }

  lemma FieldRest(l: Layout, s: seq<byte>, data: seq<byte>, offset: nat, p: nat)
    requires l.Usable() && l.Fits(|s|) && FieldAt(l, s, data, offset) && p < offset + NewSize(l, |s|)
    requires offset + l.countBytes + |s| + (if l.byteSwapped then |s| % 2 else 0) <= p
    ensures p < |data| && data[p] == 0
  {
    FieldBytes(l, s, data, offset);
    var j := p - offset - l.countBytes;
    XorFlag(j);
    assert data[offset + l.countBytes + j] == PayloadByte(l, s, j);
  }

  lemma FieldCount(l: Layout, s: seq<byte>, data: seq<byte>, offset: nat)
    requires l.Usable() && l.Fits(|s|) && FieldAt(l, s, data, offset)
    ensures CountWord(l, data, offset, |s|)
  {
    FieldBytes(l, s, data, offset);
    if l.counted {
      StoredBytes(data, offset, l.CountOrder(), |s|);
      WordBytes(data, offset, l.CountOrder(), |s|);
      Pow256Values();
    }
  }

  lemma WordBytes(data: seq<byte>, offset: nat, order: seq<int>, n: nat)
    requires Stored(data, offset, order, n)
    ensures |order| == 1 ==> data[offset + order[0]] == n % 0x100
    ensures |order| == 2 ==> Stored2(data, offset, order, n)
    ensures |order| == 4 ==> Stored4(data, offset, order, n)
  {
    Pow256Values();
    assert Pow256(0) == 1 && Pow256(3) == 0x100_0000;
    assert |order| > 0 ==> data[offset + order[0]] == n / Pow256(0) % 256;
    assert |order| > 1 ==> data[offset + order[1]] == n / Pow256(1) % 256;
    assert |order| > 3 ==> data[offset + order[2]] == n / Pow256(2) % 256;
    assert |order| > 3 ==> data[offset + order[3]] == n / Pow256(3) % 256;
  }

  /** The declarative field is the one the source writes byte by byte. */
  lemma FieldIsLaidOut(l: Layout, s: seq<byte>, data: seq<byte>, offset: nat)
    requires l.Usable() && l.Fits(|s|) && FieldAt(l, s, data, offset)
    ensures LaidOut(l, s, data, offset)
  {
    NewSizeHolds(l, |s|);
    FieldCount(l, s, data, offset);
    FieldEnd(l, s, data, offset);
    forall k: nat | 2 * k + 1 < |s|
      ensures PairAt(l, s, data, offset + l.countBytes, k)
    {
      FieldPair(l, s, data, offset, k);
    }
    forall p | offset + l.countBytes + |s| + (if l.byteSwapped then |s| % 2 else 0) <= p < offset + NewSize(l, |s|)
      ensures data[p] == 0
    {
      FieldRest(l, s, data, offset, p);
    }
  }

  function Word(b0: int, b1: int, b2: int, b3: int): int {
    b0 + 0x100 * b1 + 0x1_0000 * b2 + 0x100_0000 * b3
  }

  /** The length a count word gives, written out for each of its widths. */
  lemma CountedLength(l: Layout, data: seq<byte>, offset: nat)
    requires l.Usable() && l.counted && CountReadable(l, data, offset)
    ensures l.countBytes == 1 ==> StoredLength(l, data, offset) == data[offset]
    ensures l.countBytes == 2 ==>
              var u := Word(data[offset + l.order16[0]], data[offset + l.order16[1]], 0, 0);
              StoredLength(l, data, offset) == if u >= 0x8000 then u - 0x1_0000 else u
    ensures l.countBytes == 4 ==>
              var u := Word(data[offset + l.order32[0]], data[offset + l.order32[1]],
                            data[offset + l.order32[2]], data[offset + l.order32[3]]);
              StoredLength(l, data, offset) == if u >= 0x8000_0000 then u - 0x1_0000_0000 else u
  {
    LoadIsWeighted(data, offset, l.CountOrder(), l.countBytes > 1);
    WeightedWord(data, offset, l.CountOrder());
    Pow256Values();
  }

  lemma WeightedWord(data: seq<byte>, offset: nat, o: seq<int>)
    requires Permutes(o, |o|) && offset + |o| <= |data|
    ensures |o| == 1 ==> Weighted(data, offset, o, 0) == data[offset + o[0]]
    ensures |o| == 2 ==> Weighted(data, offset, o, 0) == Word(data[offset + o[0]], data[offset + o[1]], 0, 0)
    ensures |o| == 4 ==>
              var w := Word(data[offset + o[0]], data[offset + o[1]], data[offset + o[2]], data[offset + o[3]]);
              Weighted(data, offset, o, 0) == w
  {
    Pow256Values();
    assert Pow256(0) == 1 && Pow256(3) == 0x100_0000;
    if |o| > 0 {
      assert Weighted(data, offset, o, 0) == data[offset + o[0]] * Pow256(0) + Weighted(data, offset, o, 1);
    }
    if |o| > 1 {
      assert Weighted(data, offset, o, 1) == data[offset + o[1]] * Pow256(1) + Weighted(data, offset, o, 2);
    }
    if |o| == 4 {
      assert Weighted(data, offset, o, 2) == data[offset + o[2]] * Pow256(2) + Weighted(data, offset, o, 3);
      assert Weighted(data, offset, o, 3) == data[offset + o[3]] * Pow256(3) + Weighted(data, offset, o, 4);
    }
  }

  /** The characters read are those at the places of the layout. */
  lemma DecodedPairs(l: Layout, data: seq<byte>, offset: nat, n: nat)
    requires forall i :: 0 <= i < n ==> offset + l.countBytes + CharIndex(l, i) < |data|
    ensures PairsAt(l, Decoded(l, data, offset, n), n, data, offset + l.countBytes)
  {
    var s := Decoded(l, data, offset, n);
    forall k: nat | 2 * k + 1 < n
      ensures PairAt(l, s, data, offset + l.countBytes, k)
    {
      DecodedPair(l, data, offset, n, k);
    }
    if n % 2 == 1 {
      DecodedLast(l, data, offset, n);
    }
  }

  lemma DecodedLast(l: Layout, data: seq<byte>, offset: nat, n: nat)
    requires forall i :: 0 <= i < n ==> offset + l.countBytes + CharIndex(l, i) < |data|
    requires n % 2 == 1
    ensures LastAt(l, Decoded(l, data, offset, n), n, data, offset + l.countBytes)
  {
    XorFlag(n - 1);
    assert offset + l.countBytes + CharIndex(l, n - 1) < |data|;
  }

  lemma DecodedPair(l: Layout, data: seq<byte>, offset: nat, n: nat, k: nat)
    requires forall i :: 0 <= i < n ==> offset + l.countBytes + CharIndex(l, i) < |data|
    requires 2 * k + 1 < n
    ensures PairAt(l, Decoded(l, data, offset, n), data, offset + l.countBytes, k)
  {
    XorFlag(2 * k);
    XorFlag(2 * k + 1);
    assert offset + l.countBytes + CharIndex(l, 2 * k) < |data|;
    assert offset + l.countBytes + CharIndex(l, 2 * k + 1) < |data|;
  }

  /** Reading n characters stays inside exactly while the partner of an odd last one is inside. */
  lemma ReadableTo(l: Layout, start: nat, n: nat, size: nat)
    requires start + n <= size
    ensures (forall i :: 0 <= i < n ==> start + CharIndex(l, i) < size) <==>
              (l.byteSwapped && n % 2 == 1 ==> start + n < size)
  {
    forall i | 0 <= i < n
      ensures CharIndex(l, i) < n || (l.byteSwapped && n % 2 == 1 && i == n - 1 && CharIndex(l, i) == n)
    {
      XorFlag(i);
    }
    if l.byteSwapped && n % 2 == 1 {
      XorFlag(n - 1);
      assert CharIndex(l, n - 1) == n;
    }
  }

  /** The stored length of a written field is the string's length, except that a 2-byte
      count above 32767 comes back negative. */
  lemma LengthOfField(l: Layout, s: seq<byte>, data: seq<byte>, offset: nat)
    requires l.Usable() && l.Fits(|s|) && IsCString(s) && FieldAt(l, s, data, offset)
    ensures CountReadable(l, data, offset)
    ensures StoredLength(l, data, offset) == |s| <==> (l.countBytes == 2 ==> |s| <= 32767)
    ensures l.countBytes == 2 && |s| > 32767 ==> StoredLength(l, data, offset) < 0
  {
    FieldBytes(l, s, data, offset);
    if l.counted {
      Pow256Values();
      BytesRoundTrip(|s|, l.countBytes);
    } else {
      forall i | offset <= i < offset + |s|
        ensures data[i] != 0
      {
        XorFlag(i - offset);
        assert data[offset + 0 + (i - offset)] == PayloadByte(l, s, i - offset);
      }
      assert data[offset + 0 + |s|] == PayloadByte(l, s, |s|);
      FirstZeroIs(data, offset, |s|);
    }
  }

  /** The terminator lands on the last character exactly when an odd string is byte-swapped. */
  predicate Clobbered(l: Layout, n: nat) {
    l.zeroTerminated && l.byteSwapped && n % 2 == 1
  }

  /** The characters plc_tag_get_string copies. */
  function Decoded(l: Layout, data: seq<byte>, offset: nat, n: nat): (s: seq<byte>)
    requires forall i :: 0 <= i < n ==> offset + l.countBytes + CharIndex(l, i) < |data|
    ensures |s| == n
  {
    seq(n, i requires 0 <= i < n => data[offset + l.countBytes + CharIndex(l, i)])
  }

  lemma CharsInField(l: Layout, s: seq<byte>, data: seq<byte>, offset: nat, n: nat)
    requires l.Usable() && l.Fits(|s|) && FieldAt(l, s, data, offset) && n <= |s|
    ensures forall i :: 0 <= i < n ==> l.countBytes + CharIndex(l, i) < NewSize(l, |s|)
  {
    NewSizeHolds(l, |s|);
    forall i | 0 <= i < n
      ensures l.countBytes + CharIndex(l, i) < NewSize(l, |s|)
    {
      XorFlag(i);
    }
  }

  lemma CharOfField(l: Layout, s: seq<byte>, data: seq<byte>, offset: nat, i: nat)
    requires l.Usable() && l.Fits(|s|) && IsCString(s) && FieldAt(l, s, data, offset) && i < |s|
    ensures offset + l.countBytes + CharIndex(l, i) < |data|
    ensures data[offset + l.countBytes + CharIndex(l, i)] == s[i] <==> !(i == |s| - 1 && Clobbered(l, |s|))
  {
    CharsInField(l, s, data, offset, i + 1);
    FieldBytes(l, s, data, offset);
    var j := CharIndex(l, i);
    XorFlag(i);
    XorFlag(j);
    assert data[offset + l.countBytes + j] == PayloadByte(l, s, j);
  }

  /** Every prefix of the string is read back, the whole string unless its end was clobbered. */
  lemma CharsOfField(l: Layout, s: seq<byte>, data: seq<byte>, offset: nat, n: nat)
    requires l.Usable() && l.Fits(|s|) && IsCString(s) && FieldAt(l, s, data, offset) && n <= |s|
    ensures forall i :: 0 <= i < n ==> offset + l.countBytes + CharIndex(l, i) < |data|
    ensures Decoded(l, data, offset, n) == s[..n] <==> !(n == |s| && Clobbered(l, |s|))
  {
    CharsInField(l, s, data, offset, n);
    var r := Decoded(l, data, offset, n);
    forall i | 0 <= i < n
      ensures r[i] == s[i] <==> !(i == |s| - 1 && Clobbered(l, |s|))
    {
      CharOfField(l, s, data, offset, i);
    }
    if n == |s| && Clobbered(l, |s|) {
      assert r[n - 1] != s[..n][n - 1];
    }
  }

  /** How far get_string_total_length_unsafe falls short of the size a field was written with:
      the odd byte of a variable-length swapped string, the slack of a fixed field. */
  function SizeDrift(l: Layout, n: nat): int {
    if l.fixedLength then l.totalLength - l.PartsLength()
    else if l.byteSwapped then n % 2 else 0
  }

  /** Measuring a field that was just written gives its size less the drift. */
  lemma SizeOfField(l: Layout, s: seq<byte>, data: seq<byte>, offset: nat)
    requires l.Usable() && l.Fits(|s|) && IsCString(s) && FieldAt(l, s, data, offset)
    requires l.countBytes == 2 ==> |s| <= 32767
    ensures l.fixedLength || CountReadable(l, data, offset)
    ensures OldSize(l, data, offset) + SizeDrift(l, |s|) == NewSize(l, |s|)
  {
    LengthOfField(l, s, data, offset);
  }
}
