/** Byte orders: the check of a byte order string, and integers spread over a buffer
    through the byte permutation the string describes. */
module ByteOrder {
  import opened Bits
  import opened Status

  /** `order` names each of the n byte positions at most once (hence exactly once). */
  predicate Permutes(order: seq<int>, n: nat) {
    && |order| == n
    && (forall i :: 0 <= i < n ==> 0 <= order[i] < n)
    && (forall i, j :: 0 <= i < j < n ==> order[i] != order[j])
  }

  /** A permutation also reaches every position. */
  lemma {:induction false} PermutesOnto(order: seq<int>, n: nat, v: nat)
    requires Permutes(order, n) && v < n
    ensures v in order
  {
    var hit := set i | 0 <= i < n :: order[i];
    Injective(order, n);
    var rest := UpTo(n) - hit;
    assert UpTo(n) == hit + rest;
    assert rest == {};
    assert v in hit;
  }

  lemma {:induction false} Injective(order: seq<int>, k: nat)
    requires k <= |order| && forall i, j :: 0 <= i < j < |order| ==> order[i] != order[j]
    ensures |set i | 0 <= i < k :: order[i]| == k
  {
    if k > 0 {
      Injective(order, k - 1);
      var s := set i | 0 <= i < k - 1 :: order[i];
      assert (set i | 0 <= i < k :: order[i]) == s + {order[k - 1]};
    }
  }

  function UpTo(n: nat): (s: set<int>)
    ensures |s| == n
    ensures forall k :: k in s <==> 0 <= k < n
  {
    if n == 0 then {} else UpTo(n - 1) + {n - 1}
  }

  /** The digit values written in a byte order string. */
  function Digits(s: string): seq<int> {
    seq(|s|, i requires 0 <= i < |s| => s[i] as int - '0' as int)
  }

  /** The length is wrong, or the string is a permutation of 0..length-1, or it is bad data. */
  method CheckByteOrderStr(s: string, length: nat) returns (rc: int)
    requires length <= 8
    ensures rc == ERR_TOO_SMALL <==> |s| < length
    ensures rc == ERR_TOO_LARGE <==> |s| > length
    ensures rc == STATUS_OK <==> Permutes(Digits(s), length)
    ensures rc in {STATUS_OK, ERR_TOO_SMALL, ERR_TOO_LARGE, ERR_BAD_DATA}
  {
    if |s| != length {
      return if |s| < length then ERR_TOO_SMALL else ERR_TOO_LARGE;
    }
    ghost var d := Digits(s);
    var taken := seq(8, _ => false);
    var i := 0;
    while i < |s|
      invariant 0 <= i <= |s| && |taken| == 8
      invariant forall j :: 0 <= j < i ==> 0 <= d[j] < length
      invariant forall j, k :: 0 <= j < k < i ==> d[j] != d[k]
      invariant forall v :: 0 <= v < 8 ==> (taken[v] <==> v in d[..i])
    {
      if s[i] < '0' || s[i] > '7' {
        assert !(0 <= d[i] < length);
        return ERR_BAD_DATA;
      }
      var val := s[i] as int - '0' as int;
      if val < 0 || val > length - 1 {
        assert !(0 <= d[i] < length);
        return ERR_BAD_DATA;
      }
      if taken[val] {
        ghost var j :| 0 <= j < i && d[j] == val;
        assert d[j] == d[i];
        return ERR_BAD_DATA;
      }
      taken := taken[val := true];
      assert d[..i + 1] == d[..i] + [val];
      i := i + 1;
    }
    return STATUS_OK;
  }

  /** What set_tag_byte_order stores for each character: the unsigned digit under a mask of k bits. */
  function MaskedOrder(s: string, k: nat): seq<int> {
    seq(|s|, i requires 0 <= i < |s| => And((s[i] as int - '0' as int) % 0x1_0000_0000, Pow2(k) - 1))
  }

  /** For an accepted string the masks 0x01, 0x03 and 0x07 change no digit. */
  lemma MasksKeepDigits(s: string, k: nat)
    requires k <= 3 && Permutes(Digits(s), Pow2(k))
    ensures MaskedOrder(s, k) == Digits(s)
  {
    forall i | 0 <= i < |s|
      ensures MaskedOrder(s, k)[i] == Digits(s)[i]
    {
      MaskKeepsDigit(Digits(s)[i], k);
    }
  }

  lemma MaskKeepsDigit(d: int, k: nat)
    requires 0 <= d < Pow2(k) && k <= 3
    ensures And(d % 0x1_0000_0000, Pow2(k) - 1) == d
  {
    SmallPowers(k);
    ModUnique(d, 0x1_0000_0000, 0, d);
    AndMask(d, k);
    ModUnique(d, Pow2(k), 0, d);
  }

  lemma SmallPowers(k: nat)
    requires k <= 3
    ensures Pow2(k) <= 8
  {
  }

  /** Byte k of a value: (val >> 8k) & 0xFF. */
  function ByteAt(val: nat, k: nat): (b: byte) {
    if k == 0 then val % 256 else ByteAt(val / 256, k - 1)
  }

  function Bytes(val: nat, n: nat): (bs: seq<byte>)
    ensures |bs| == n
  {
    seq(n, i requires 0 <= i < n => ByteAt(val, i))
  }

  /** The value of little-endian bytes: the sum of b[i] << 8i. */
  function FromBytes(bs: seq<byte>): nat {
    if bs == [] then 0 else bs[0] + 256 * FromBytes(bs[1..])
  }

  function Pow256(n: nat): (p: nat)
    ensures p > 0
  {
    if n == 0 then 1 else 256 * Pow256(n - 1)
  }

  lemma Pow256Values()
    ensures Pow256(1) == 0x100 && Pow256(2) == 0x1_0000 && Pow256(4) == 0x1_0000_0000
    ensures Pow256(8) == 0x1_0000_0000_0000_0000
  {
  }

  lemma {:induction false} BytesRoundTrip(val: nat, n: nat)
    requires val < Pow256(n)
    ensures FromBytes(Bytes(val, n)) == val
  {
    if n > 0 {
      BytesRoundTrip(val / 256, n - 1);
      assert Bytes(val, n)[1..] == Bytes(val / 256, n - 1);
    }
  }

  lemma {:induction false} FromBytesRoundTrip(bs: seq<byte>)
    ensures FromBytes(bs) < Pow256(|bs|)
    ensures Bytes(FromBytes(bs), |bs|) == bs
  {
    if bs != [] {
      FromBytesRoundTrip(bs[1..]);
      var v := FromBytes(bs);
      assert v % 256 == bs[0] && v / 256 == FromBytes(bs[1..]);
      assert Bytes(v, |bs|)[0] == bs[0];
      assert Bytes(v, |bs|)[1..] == Bytes(v / 256, |bs| - 1);
      assert bs == [bs[0]] + bs[1..];
      assert Bytes(v, |bs|) == [bs[0]] + Bytes(v, |bs|)[1..];
    }
  }

  /** The bytes of an integer field, least significant first. */
  function Gather(data: seq<byte>, offset: nat, order: seq<int>): (bs: seq<byte>)
    requires Permutes(order, |order|) && offset + |order| <= |data|
    ensures |bs| == |order|
  {
    seq(|order|, i requires 0 <= i < |order| => data[offset + order[i]])
  }

  /** The buffers agree everywhere but in data[offset..offset+n]. */
  predicate OnlyField(data: seq<byte>, data': seq<byte>, offset: nat, n: nat) {
    && |data'| == |data|
    && offset + n <= |data|
    && data'[..offset] == data[..offset]
    && data'[offset + n..] == data[offset + n..]
  }

  /** Nothing of the field escapes the permutation: equal bytes through it are equal buffers. */
  lemma GatherDetermines(data: seq<byte>, data': seq<byte>, offset: nat, order: seq<int>)
    requires Permutes(order, |order|) && OnlyField(data, data', offset, |order|)
    requires Gather(data, offset, order) == Gather(data', offset, order)
    ensures data == data'
  {
    var n := |order|;
    forall p | 0 <= p < |data|
      ensures data[p] == data'[p]
    {
      if p < offset {
        assert data[..offset][p] == data'[..offset][p];
      } else if p < offset + n {
        PermutesOnto(order, n, p - offset);
        var i :| 0 <= i < n && order[i] == p - offset;
        assert Gather(data, offset, order)[i] == Gather(data', offset, order)[i];
      } else {
        assert data[offset + n..][p - offset - n] == data'[offset + n..][p - offset - n];
      }
    }
  }

  /** Byte k of the number is at the place the order names for it. */
  ghost predicate Stored(data: seq<byte>, offset: nat, order: seq<int>, u: nat) {
    && Permutes(order, |order|) && offset + |order| <= |data|
    && forall k :: 0 <= k < |order| ==> data[offset + order[k]] == u / Pow256(k) % 256
  }

  lemma DivTwice(x: nat, p: nat)
    requires p > 0
    ensures x / (256 * p) == (x / 256) / p
  {
    var q, r := (x / 256) / p, (x / 256) % p;
    assert x / 256 == q * p + r;
    assert x == q * (256 * p) + (256 * r + x % 256);
    ModUnique(x, 256 * p, q, 256 * r + x % 256);
  }

  lemma {:induction false} ByteValue(val: nat, k: nat)
    ensures ByteAt(val, k) == val / Pow256(k) % 256
    decreases k
  {
    if k > 0 {
      ByteValue(val / 256, k - 1);
      DivTwice(val, Pow256(k - 1));
    }
  }

  lemma StoredBytes(data: seq<byte>, offset: nat, order: seq<int>, u: nat)
    requires Permutes(order, |order|) && offset + |order| <= |data|
    requires Gather(data, offset, order) == Bytes(u, |order|)
    ensures Stored(data, offset, order, u)
  {
    forall k | 0 <= k < |order|
      ensures data[offset + order[k]] == u / Pow256(k) % 256
    {
      assert Gather(data, offset, order)[k] == Bytes(u, |order|)[k];
      ByteValue(u, k);
    }
  }

  /** The number a field stands for: the byte at the k-th place of the order counts for 256^k. */
  function Weighted(data: seq<byte>, offset: nat, order: seq<int>, k: nat): nat
    requires Permutes(order, |order|) && offset + |order| <= |data| && k <= |order|
    decreases |order| - k
  {
    if k == |order| then 0 else data[offset + order[k]] * Pow256(k) + Weighted(data, offset, order, k + 1)
  }

  lemma {:induction false} WeightedIs(data: seq<byte>, offset: nat, order: seq<int>, k: nat)
    requires Permutes(order, |order|) && offset + |order| <= |data| && k <= |order|
    ensures Weighted(data, offset, order, k) == Pow256(k) * FromBytes(Gather(data, offset, order)[k..])
    decreases |order| - k
  {
    var g := Gather(data, offset, order);
    if k < |order| {
      WeightedIs(data, offset, order, k + 1);
      assert g[k..][1..] == g[k + 1..] && g[k..][0] == data[offset + order[k]];
      Distribute(Pow256(k), g[k], FromBytes(g[k + 1..]));
    }
  }

  lemma Distribute(p: nat, a: nat, b: nat)
    ensures p * (a + 256 * b) == a * p + 256 * p * b
  {
  }

  function Signed(u: nat, n: nat, signed: bool): int {
    if signed && u >= Pow256(n) / 2 then u - Pow256(n) else u
  }

  /** What a getter computes, without the detour over byte strings. */
  lemma LoadIsWeighted(data: seq<byte>, offset: nat, order: seq<int>, signed: bool)
    requires Permutes(order, |order|) && offset + |order| <= |data|
    ensures LoadInt(data, offset, order, signed) == Signed(Weighted(data, offset, order, 0), |order|, signed)
  {
    WeightedIs(data, offset, order, 0);
    assert Gather(data, offset, order)[0..] == Gather(data, offset, order);
  }

  /** (uintN_t)v and (intN_t)u for n bytes. */
  function ToUnsigned(v: int, n: nat): (u: nat)
    ensures u < Pow256(n)
  {
    v % Pow256(n)
  }

  function ToSigned(u: nat, n: nat): int {
    if u < Pow256(n) / 2 then u else u - Pow256(n)
  }

  predicate InRange(v: int, n: nat, signed: bool) {
    if signed then -(Pow256(n) as int) / 2 <= v < Pow256(n) / 2 else 0 <= v < Pow256(n)
  }

  /** Exactly the values of the type survive the casts. */
  lemma SignRoundTrip(v: int, n: nat)
    requires n > 0
    ensures ToSigned(ToUnsigned(v, n), n) == v <==> InRange(v, n, true)
    ensures ToUnsigned(v, n) == v <==> InRange(v, n, false)
  {
    var p := Pow256(n);
    assert p == 256 * Pow256(n - 1);
    if 0 <= v < p {
      ModUnique(v, p, 0, v);
    } else if -p <= v < 0 {
      ModUnique(v, p, -1, v + p);
    }
  }

  /** The integer an n-byte getter computes from the buffer. */
  function LoadInt(data: seq<byte>, offset: nat, order: seq<int>, signed: bool): int
    requires Permutes(order, |order|) && offset + |order| <= |data|
  {
    var u := FromBytes(Gather(data, offset, order));
    if signed then ToSigned(u, |order|) else u
  }

  /** Reading what a setter of the same width, order and signedness left gives the value back,
      exactly for the values of the type. */
  lemma LoadOfStored(data: seq<byte>, offset: nat, order: seq<int>, v: int, signed: bool)
    requires |order| > 0 && Permutes(order, |order|) && offset + |order| <= |data|
    requires Gather(data, offset, order) == Bytes(ToUnsigned(v, |order|), |order|)
    ensures LoadInt(data, offset, order, signed) == v <==> InRange(v, |order|, signed)
  {
    BytesRoundTrip(ToUnsigned(v, |order|), |order|);
    SignRoundTrip(v, |order|);
  }
}
