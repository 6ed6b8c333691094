/** Powers of two and the bits of a natural number, the arithmetic that the
    IPv4 address computations rest on. Addresses are naturals below 2^32;
    bit i of x is the remainder of x / 2^i modulo 2, computed by halving. */
module Pow2Arith {

  /** 2^n */
  function Pow2(n: nat): (r: nat)
    ensures r >= 1
  {
    if n == 0 then 1 else 2 * Pow2(n - 1)
  }

  /** Bit i of x (0 is the least significant bit). */
  function Bit(x: nat, i: nat): (b: nat)
    ensures b < 2
  {
    if i == 0 then x % 2 else Bit(x / 2, i - 1)
  }

  /** x >> k */
  function ShiftRight(x: nat, k: nat): nat
  {
    if k == 0 then x else ShiftRight(x / 2, k - 1)
  }

  /** Shifting 2^(m + k) right by k leaves 2^m. */
  lemma {:induction false} ShiftRightPow2(m: nat, k: nat)
    ensures ShiftRight(Pow2(m + k), k) == Pow2(m)
  {
    if k > 0 {
      assert Pow2(m + k) / 2 == Pow2(m + k - 1);
      ShiftRightPow2(m, k - 1);
    }
  }

  lemma {:induction false} Pow2Add(m: nat, n: nat)
    ensures Pow2(m + n) == Pow2(m) * Pow2(n)
  {
    if m > 0 {
      Pow2Add(m - 1, n);
      assert Pow2(m + n) == 2 * Pow2(m - 1 + n);
    }
  }

  /** 2^n splits as 2^(n - m) * 2^m. */
  lemma Pow2Split(m: nat, n: nat)
    requires m <= n
    ensures Pow2(n) == Pow2(n - m) * Pow2(m)
  {
    Pow2Add(n - m, m);
  }

  lemma {:induction false} Pow2Monotone(m: nat, n: nat)
    requires m <= n
    ensures Pow2(m) <= Pow2(n)
  {
    if m < n {
      Pow2Monotone(m, n - 1);
    }
  }

  /** Every bit of 0 is clear. */
  lemma {:induction false} BitOfZero(i: nat)
    ensures Bit(0, i) == 0
  {
    if i > 0 {
      BitOfZero(i - 1);
    }
  }

  /** Splitting a number at bit n: the low n bits come from the remainder r,
      the others from the quotient k. */
  lemma {:induction false} BitOfSum(k: nat, r: nat, n: nat, i: nat)
    requires r < Pow2(n)
    ensures Bit(k * Pow2(n) + r, i) == if i < n then Bit(r, i) else Bit(k, i - n)
  {
    if n == 0 {
      assert r == 0;
    } else {
      var m := k * Pow2(n - 1);
      assert k * Pow2(n) + r == 2 * m + r;
      if i == 0 {
        assert (2 * m + r) % 2 == r % 2;
      } else {
        assert (2 * m + r) / 2 == m + r / 2;
        assert r / 2 < Pow2(n - 1);
        BitOfSum(k, r / 2, n - 1, i - 1);
      }
    }
  }

  /** 2^k - 1 has exactly its low k bits set. */
  lemma {:induction false} BitOfAllOnes(k: nat, j: nat)
    ensures Bit(Pow2(k) - 1, j) == if j < k then 1 else 0
  {
    if k == 0 {
      BitOfZero(j);
    } else if j == 0 {
      assert Pow2(k) - 1 == 2 * (Pow2(k - 1) - 1) + 1;
    } else {
      assert (Pow2(k) - 1) / 2 == Pow2(k - 1) - 1;
      BitOfAllOnes(k - 1, j - 1);
    }
  }

  /** 2^8, 2^16 and 2^32 as numerals. */
  lemma Pow2Constants()
    ensures Pow2(8) == 0x100 && Pow2(16) == 0x1_0000 && Pow2(24) == 0x100_0000
    ensures Pow2(32) == 0x1_0000_0000
  {
    assert Pow2(2) == 4;
    Pow2Add(2, 2);
    Pow2Add(4, 4);
    Pow2Add(8, 8);
    Pow2Add(16, 8);
    Pow2Add(16, 16);
  }

  /** Euclidean division is unique. */
  lemma DivModUnique(x: nat, d: nat, q: nat, r: nat)
    requires d >= 1 && r < d && x == q * d + r
    ensures x / d == q && x % d == r
  {
    var q', r' := x / d, x % d;
    if q' > q {
      MulMonotone(1, q' - q, d);
    } else if q' < q {
      MulMonotone(1, q - q', d);
    }
  }

  /** Rounding x down to a multiple of d. */
  lemma RoundDown(x: nat, d: nat)
    requires d >= 1
    ensures (x - x % d) % d == 0 && (x - x % d) / d == x / d
    ensures x - x % d == (x / d) * d
  {
    DivModUnique(x - x % d, d, x / d, 0);
  }

  /** Adding inc whole units of size d adds inc to the quotient by d. */
  lemma DivAddUnits(x: nat, d: nat, inc: nat)
    requires d >= 1
    ensures (x + inc * d) / d == x / d + inc
  {
    DivModUnique(x + inc * d, d, x / d + inc, x % d);
  }

  /** Adding a multiple of m does not change the remainder modulo m. */
  lemma ModAddMultiple(a: nat, m: nat, r: nat)
    requires m >= 1
    ensures (a * m + r) % m == r % m
  {
    DivModUnique(a * m + r, m, a + r / m, r % m);
  }

  /** Adding inc units of size d adds inc, modulo m, to the digit
      (x / d) % m. */
  lemma DigitAddUnits(x: nat, d: nat, inc: nat, m: nat)
    requires d >= 1 && m >= 1
    ensures (x + inc * d) / d % m == (x / d % m + inc) % m
  {
    DivAddUnits(x, d, inc);
    ModAddDigit(x / d, inc, m);
  }

  lemma ModAddDigit(q: nat, inc: nat, m: nat)
    requires m >= 1
    ensures (q + inc) % m == (q % m + inc) % m
  {
    ModAddMultiple(q / m, m, q % m + inc);
    assert q / m * m + (q % m + inc) == q + inc;
  }

  /** x rounded down to a multiple of d lies within d below x. */
  lemma RoundDownBounds(x: nat, d: nat)
    requires d >= 1
    ensures x % d <= x
    ensures x - x % d <= x < x - x % d + d
    ensures (x - x % d) % d == 0
  {
    RoundDown(x, d);
  }

  lemma DivBelow(x: nat, d: nat, b: nat)
    requires d >= 1 && x < b * d
    ensures x / d < b
  {
  }

  lemma MulPredecessor(x: nat, y: nat)
    requires x >= 1
    ensures (x - 1) * y == x * y - y
  {
  }

  lemma MulMonotone(x: nat, y: nat, z: nat)
    requires x <= y
    ensures x * z <= y * z
  {
  }
}
