/** Machine integers: bytes, widths, and the bitwise "and" of unsigned machine words as arithmetic. */
module Bits {

  newtype Byte = x: int | 0 <= x < 256

  const U16 := 0x1_0000
  const U32 := 0x1_0000_0000

  function Min(a: int, b: int): (r: int)
    ensures r <= a && r <= b && (r == a || r == b)
  {
    if a < b then a else b
  }

  /** x & y, bit by bit. */
  function And(x: nat, y: nat): nat {
    if x == 0 || y == 0 then 0
    else 2 * And(x / 2, y / 2) + (if x % 2 == 1 && y % 2 == 1 then 1 else 0)
  }

  function Pow2(k: nat): nat {
    if k == 0 then 1 else 2 * Pow2(k - 1)
  }

  lemma {:induction false} Pow2Positive(k: nat)
    ensures Pow2(k) >= 1
  {
    if k > 0 { Pow2Positive(k - 1); }
  }

  lemma {:induction false} AndAtMost(x: nat, y: nat)
    ensures And(x, y) <= x && And(x, y) <= y
  {
    if x != 0 && y != 0 { AndAtMost(x / 2, y / 2); }
  }

  /** Masking with 2^k - 1 is the remainder modulo 2^k. */
  lemma {:induction false} AndMask(x: nat, k: nat)
    ensures Pow2(k) >= 1 && And(x, Pow2(k) - 1) == x % Pow2(k)
  {
    Pow2Positive(k);
    if k == 0 {
      assert And(x, 0) == 0;
    } else {
      Pow2Positive(k - 1);
      AndMask(x / 2, k - 1);
      HalfMod(x, Pow2(k - 1));
      assert (Pow2(k) - 1) / 2 == Pow2(k - 1) - 1;
    }
  }

  lemma HalfMod(x: nat, p: nat)
    requires p > 0
    ensures x % (2 * p) == 2 * ((x / 2) % p) + x % 2
    ensures x / (2 * p) == (x / 2) / p
  {
    var h := x / 2;
    assert h == p * (h / p) + h % p;
    assert x == (2 * p) * (h / p) + (2 * (h % p) + x % 2) by {
      assert 2 * (p * (h / p)) == (2 * p) * (h / p);
    }
    ModOf(2 * p, h / p, 2 * (h % p) + x % 2);
  }

  /** And-ing with 2^k asks for bit k. */
  lemma {:induction false} AndBit(x: nat, k: nat)
    ensures Pow2(k) >= 1 && (And(x, Pow2(k)) != 0 <==> x / Pow2(k) % 2 == 1)
  {
    Pow2Positive(k);
    if k == 0 {
      assert And(x, 1) == x % 2;
    } else {
      Pow2Positive(k - 1);
      AndBit(x / 2, k - 1);
      HalfMod(x, Pow2(k - 1));
      assert Pow2(k) / 2 == Pow2(k - 1);
    }
  }

  lemma ModOf(p: nat, q: int, r: nat)
    requires r < p
    ensures (p * q + r) % p == r && (p * q + r) / p == q
  {
    var x := p * q + r;
    var d := x / p - q;
    assert x == p * (x / p) + x % p;
    assert p * (x / p) == p * q + p * d by { assert p * (q + d) == p * q + p * d; }
    SmallMultiple(p, d);
  }

  lemma SmallMultiple(p: nat, d: int)
    ensures d > 0 ==> p * d >= p
    ensures d < 0 ==> p * d + p <= 0
  {
    if d > 0 { assert p * d == p * (d - 1) + p; }
    if d < 0 { assert p * d + p == -(p * (-d - 1)); }
  }

  /** Congruent numbers have the same remainder. */
  lemma ModShift(x: int, p: nat, q: int)
    requires p > 0
    ensures (x + p * q) % p == x % p
  {
    assert x == p * (x / p) + x % p;
    assert x + p * q == p * (x / p + q) + x % p by { assert p * (x / p + q) == p * (x / p) + p * q; }
    ModOf(p, x / p + q, x % p);
  }

  lemma {:induction false} Pow2Add(a: nat, b: nat)
    ensures Pow2(a + b) == Pow2(a) * Pow2(b)
  {
    if a > 0 {
      Pow2Add(a - 1, b);
      DoubleProduct(Pow2(a - 1), Pow2(b));
    }
  }

  lemma DoubleProduct(x: nat, y: nat)
    ensures (2 * x) * y == 2 * (x * y)
  {
  }
}
