/** The 32-bit operators of the address arithmetic, on natural numbers. */
module Bits {

  function Pow2(n: nat): (r: nat)
    ensures r >= 1
  {
    if n == 0 then 1 else 2 * Pow2(n - 1)
  }

  const U32_SIZE := 0x1_0000_0000

  type U32 = x: nat | x < U32_SIZE

  function And(a: nat, b: nat): (r: nat)
    ensures r <= a
    decreases a
  {
    if a == 0 then 0 else 2 * And(a / 2, b / 2) + (if a % 2 == 1 && b % 2 == 1 then 1 else 0)
  }

  function Or(a: nat, b: nat): nat
    decreases a + b
  {
    if a == 0 && b == 0 then 0 else 2 * Or(a / 2, b / 2) + (if a % 2 == 1 || b % 2 == 1 then 1 else 0)
  }

  /** `!x`: every one of the 32 bits flipped. */
  function Not(x: U32): U32 { U32_SIZE - 1 - x }

  /** `x << k`: bits beyond the 32nd are lost. */
  function Shl(x: U32, k: nat): U32 { x * Pow2(k) % U32_SIZE }

  function SaturatingSub(a: nat, b: nat): nat { if a < b then 0 else a - b }

  lemma {:induction false} Pow2Add(m: nat, n: nat)
    ensures Pow2(m + n) == Pow2(m) * Pow2(n)
  {
    if m == 0 {
    } else {
      Pow2Add(m - 1, n);
      assert 2 * (Pow2(m - 1) * Pow2(n)) == (2 * Pow2(m - 1)) * Pow2(n);
    }
  }

  lemma Pow2Of32()
    ensures Pow2(32) == U32_SIZE
  {
    assert Pow2(4) == 16;
    Pow2Add(4, 4);
    Pow2Add(8, 8);
    Pow2Add(16, 16);
  }

  lemma MulMono(a: nat, b: nat, d: nat)
    requires a <= b
    ensures a * d <= b * d
  {
  }

  lemma ModOf(x: nat, q: nat, r: nat, d: nat)
    requires d > 0 && r < d && x == q * d + r
    ensures x % d == r && x / d == q
  {
    var p := x / d;
    assert x == p * d + x % d;
    if p > q {
      MulMono(q + 1, p, d);
    } else if p < q {
      MulMono(p + 1, q, d);
    }
  }

  lemma Pow2Mono(m: nat, n: nat)
    requires m <= n
    ensures Pow2(m) <= Pow2(n)
  {
    Pow2Add(m, n - m);
    MulMono(1, Pow2(n - m), Pow2(m));
  }

  /** Shifting all ones left leaves zeros in the low k places. */
  lemma OnesShifted(k: nat)
    requires k <= 32
    ensures Pow2(k) <= U32_SIZE
    ensures Shl(U32_SIZE - 1, k) == U32_SIZE - Pow2(k)
  {
    Pow2Of32();
    Pow2Mono(k, 32);
    var p := Pow2(k);
    AllOnesTimes(p);
    ModOf((U32_SIZE - 1) * p, p - 1, U32_SIZE - p, U32_SIZE);
  }

  lemma AllOnesTimes(p: nat)
    requires p >= 1
    ensures (U32_SIZE - 1) * p == (p - 1) * U32_SIZE + (U32_SIZE - p)
  {
  }

  lemma {:induction false} AndOnes(a: nat, n: nat)
    requires a < Pow2(n)
    ensures And(a, Pow2(n) - 1) == a
  {
    if a == 0 {
    } else {
      AndOnes(a / 2, n - 1);
      assert (Pow2(n) - 1) / 2 == Pow2(n - 1) - 1;
    }
  }

  /** And with a mask of n ones above k zeros drops the part r of a below 2^k. */
  lemma {:induction false} AndMask(a: nat, mask: nat, q: nat, r: nat, n: nat, k: nat)
    requires a < Pow2(n + k) && mask + Pow2(k) == Pow2(n + k)
    requires a == q * Pow2(k) + r && r < Pow2(k)
    ensures And(a, mask) == a - r
  {
    if k == 0 {
      AndOnes(a, n);
    } else {
      Halve(a, q, Pow2(k - 1), r);
      var half := Pow2(n + (k - 1)) - Pow2(k - 1);
      assert Pow2(n + k) == 2 * Pow2(n + (k - 1));
      AndMask(a / 2, half, q, r / 2, n, k - 1);
      AndEven(a, half);
    }
  }

  lemma AndEven(a: nat, half: nat)
    ensures And(a, 2 * half) == 2 * And(a / 2, half)
  {
    assert 2 * half / 2 == half && 2 * half % 2 == 0;
  }

  lemma Halve(a: nat, q: nat, d: nat, r: nat)
    requires a == q * (2 * d) + r
    ensures a / 2 == q * d + r / 2 && a % 2 == r % 2
  {
    assert q * (2 * d) == 2 * (q * d);
  }

  /** Or with k low ones fills the low k bits of a multiple of 2^k. */
  lemma {:induction false} OrLowOnes(a: nat, q: nat, k: nat)
    requires a == q * Pow2(k)
    ensures Or(a, Pow2(k) - 1) == a + Pow2(k) - 1
  {
    if k == 0 {
      OrZero(a);
    } else {
      Halve(a, q, Pow2(k - 1), 0);
      OrLowOnes(a / 2, q, k - 1);
      assert (Pow2(k) - 1) / 2 == Pow2(k - 1) - 1;
    }
  }

  lemma {:induction false} OrZero(a: nat)
    ensures Or(a, 0) == a
  {
    if a == 0 {
    } else {
      OrZero(a / 2);
    }
  }

  /** And with n low ones is the remainder by 2^n. */
  lemma {:induction false} AndLow(a: nat, n: nat, q: nat, r: nat)
    requires a == q * Pow2(n) + r && r < Pow2(n)
    ensures And(a, Pow2(n) - 1) == r
  {
    if n == 0 {
      AndZero(a);
    } else {
      Halve(a, q, Pow2(n - 1), r);
      AndLow(a / 2, n - 1, q, r / 2);
      assert (Pow2(n) - 1) / 2 == Pow2(n - 1) - 1;
    }
  }

  lemma {:induction false} AndZero(a: nat)
    ensures And(a, 0) == 0
  {
    if a == 0 {
    } else {
      AndZero(a / 2);
    }
  }

  /** Or of numbers without a common bit is their sum. */
  lemma {:induction false} OrDisjoint(a: nat, q: nat, k: nat, b: nat)
    requires a == q * Pow2(k) && b < Pow2(k)
    ensures Or(a, b) == a + b
  {
    if k == 0 {
      OrZero(a);
    } else {
      Halve(a, q, Pow2(k - 1), 0);
      OrDisjoint(a / 2, q, k - 1, b / 2);
    }
  }
}
