/** The bit operators of C on unsigned values, written on unbounded naturals, and the
    arithmetic each masking idiom of the library stands for. */
module Bits {

  function Pow2(k: nat): (p: nat)
    ensures p > 0
  {
    if k == 0 then 1 else 2 * Pow2(k - 1)
  }

  /** x & y */
  function And(x: nat, y: nat): nat {
    if x == 0 || y == 0 then 0
    else 2 * And(x / 2, y / 2) + (if x % 2 == 1 && y % 2 == 1 then 1 else 0)
  }

  /** x | y */
  function Or(x: nat, y: nat): nat {
    if x == 0 && y == 0 then 0
    else 2 * Or(x / 2, y / 2) + (if x % 2 == 1 || y % 2 == 1 then 1 else 0)
  }

  /** x ^ y */
  function Xor(x: nat, y: nat): nat {
    if x == 0 && y == 0 then 0
    else 2 * Xor(x / 2, y / 2) + (if x % 2 != y % 2 then 1 else 0)
  }

  /** Dividing by a power of two in two steps. */
  lemma ModHalves(x: nat, p: nat)
    requires p > 0
    ensures x % (2 * p) == 2 * ((x / 2) % p) + x % 2 && x / (2 * p) == (x / 2) / p
  {
    var q, r := (x / 2) / p, (x / 2) % p;
    assert x / 2 == q * p + r;
    assert x == q * (2 * p) + (2 * r + x % 2);
    ModUnique(x, 2 * p, q, 2 * r + x % 2);
  }

  lemma ModUnique(x: int, m: nat, q: int, r: nat)
    requires m > 0 && r < m && x == q * m + r
    ensures x / m == q && x % m == r
  {
    var d := q - x / m;
    assert d * m == x % m - r by {
      MulSub(q, x / m, m);
    }
    if d != 0 {
      MulFar(d, m);
    }
  }

  lemma MulSub(a: int, b: int, m: int)
    ensures (a - b) * m == a * m - b * m
  {
  }

  lemma MulFar(d: int, m: int)
    requires d != 0 && m >= 0
    ensures d * m >= m || d * m + m <= 0
  {
  }

  /** Masking with 2^k - 1 is reduction modulo 2^k. */
  lemma {:induction false} AndMask(x: nat, k: nat)
    ensures And(x, Pow2(k) - 1) == x % Pow2(k)
    decreases k
  {
    if k == 0 {
      assert Pow2(0) == 1;
    } else {
      AndMask(x / 2, k - 1);
      AndMaskHalves(x, Pow2(k - 1));
    }
  }

  lemma AndMaskHalves(x: nat, p: nat)
    requires p > 0 && And(x / 2, p - 1) == (x / 2) % p
    ensures And(x, 2 * p - 1) == x % (2 * p)
  {
    AndOdd(x, p);
    ModHalves(x, p);
  }

  lemma AndOdd(x: nat, p: nat)
    requires p > 0
    ensures And(x, 2 * p - 1) == 2 * And(x / 2, p - 1) + x % 2
  {
  }

  /** Or-ing a value below 2^k into k cleared low bits is addition. */
  lemma {:induction false} OrDisjoint(hi: nat, lo: nat, k: nat)
    requires lo < Pow2(k)
    ensures Or(hi * Pow2(k), lo) == hi * Pow2(k) + lo
    decreases k
  {
    if k == 0 {
      OrZero(hi);
    } else if hi * Pow2(k) != 0 || lo != 0 {
      var p := Pow2(k - 1);
      assert hi * Pow2(k) == 2 * (hi * p);
      OrDisjoint(hi, lo / 2, k - 1);
    }
  }

  lemma {:induction false} OrZero(x: nat)
    ensures Or(x, 0) == x
  {
    if x > 0 {
      OrZero(x / 2);
    }
  }

  /** Xor with a one-bit flag leaves the index alone or swaps neighbours. */
  lemma {:induction false} XorFlag(i: nat)
    ensures Xor(i, 0) == i
    ensures Xor(i, 1) == if i % 2 == 0 then i + 1 else i - 1
  {
    XorZero(i);
    XorZero(i / 2);
    assert 1 / 2 == 0;
  }

  lemma {:induction false} XorZero(x: nat)
    ensures Xor(x, 0) == x
  {
    if x > 0 {
      XorZero(x / 2);
    }
  }

  predicate BitOf(b: nat, k: nat) {
    if k == 0 then b % 2 == 1 else BitOf(b / 2, k - 1)
  }

  /** b with bit k set to v. */
  function WithBit(b: nat, k: nat, v: bool): nat {
    if k == 0 then b - b % 2 + (if v then 1 else 0) else 2 * WithBit(b / 2, k - 1, v) + b % 2
  }

  /** Bit k is the one that counts for 2^k. */
  lemma {:induction false} BitValue(b: nat, k: nat)
    ensures BitOf(b, k) <==> b / Pow2(k) % 2 == 1
    decreases k
  {
    if k == 0 {
      assert Pow2(0) == 1;
    } else {
      BitValue(b / 2, k - 1);
      ModHalves(b, Pow2(k - 1));
    }
  }

  /** Setting a bit changes the number by nothing or by 2^k. */
  lemma {:induction false} WithBitValue(b: nat, k: nat, v: bool)
    ensures WithBit(b, k, v) == b + (if BitOf(b, k) == v then 0 else if v then Pow2(k) else -(Pow2(k) as int))
    decreases k
  {
    if k > 0 {
      WithBitValue(b / 2, k - 1, v);
    }
  }

  lemma BitChange(b: nat, k: nat, v: bool)
    ensures var bit := b / Pow2(k) % 2; WithBit(b, k, v) == b + (if v then 1 - bit else -bit) * Pow2(k)
  {
    BitValue(b, k);
    WithBitValue(b, k, v);
    SmallMultiples(Pow2(k));
  }

  lemma SmallMultiples(p: int)
    ensures 0 * p == 0 && 1 * p == p && -1 * p == -p
  {
  }

  lemma {:induction false} WithBitIs(b: nat, k: nat, v: bool, j: nat)
    ensures BitOf(WithBit(b, k, v), j) == if j == k then v else BitOf(b, j)
    decreases k
  {
    var w := WithBit(b, k, v);
    if k == 0 {
      assert w / 2 == b / 2;
    } else {
      assert w / 2 == WithBit(b / 2, k - 1, v);
      if j > 0 {
        WithBitIs(b / 2, k - 1, v, j - 1);
      }
    }
  }

  /** b |= 1 << k sets the bit. */
  lemma {:induction false} OrSetsBit(b: nat, k: nat)
    ensures Or(b, Pow2(k)) == WithBit(b, k, true)
    decreases k
  {
    if k == 0 {
      OrZero(b / 2);
      assert Pow2(0) / 2 == 0;
    } else {
      OrSetsBit(b / 2, k - 1);
      assert Pow2(k) / 2 == Pow2(k - 1);
    }
  }

  /** b &= ~(1 << k) on an m-bit value clears the bit. */
  lemma {:induction false} AndClearsBit(b: nat, k: nat, m: nat)
    requires k < m && b < Pow2(m)
    ensures Pow2(k) < Pow2(m) && And(b, Pow2(m) - 1 - Pow2(k)) == WithBit(b, k, false)
    decreases k
  {
    var p := Pow2(m - 1);
    if k == 0 {
      AndMask(b / 2, m - 1);
      ModUnique(b / 2, p, 0, b / 2);
      AndEven(b, p);
    } else {
      AndClearsBit(b / 2, k - 1, m - 1);
      AndOdd(b, p - Pow2(k - 1));
    }
  }

  lemma AndEven(x: nat, p: nat)
    requires p > 0
    ensures And(x, 2 * p - 2) == 2 * And(x / 2, p - 1)
  {
  }

  lemma {:induction false} WithBitBound(b: nat, k: nat, v: bool, m: nat)
    requires k < m && b < Pow2(m)
    ensures WithBit(b, k, v) < Pow2(m)
    decreases k
  {
    if k > 0 {
      WithBitBound(b / 2, k - 1, v, m - 1);
    }
  }
}
