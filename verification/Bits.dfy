/** Bitwise operators on natural numbers, defined digit by digit, and powers of two.
    A C shift is written as a multiplication or division by a power of two; `&` and `|`
    are `And` and `Or` below. */
module Bits {

  function Pow2(k: nat): (p: nat)
    ensures p >= 1
  {
    if k == 0 then 1 else 2 * Pow2(k - 1)
  }

  lemma {:induction false} Pow2Add(j: nat, k: nat)
    ensures Pow2(j + k) == Pow2(j) * Pow2(k)
  {
    if j == 0 {
    } else {
      Pow2Add(j - 1, k);
      assert Pow2(j + k) == 2 * Pow2(j - 1 + k);
      assert (2 * Pow2(j - 1)) * Pow2(k) == 2 * (Pow2(j - 1) * Pow2(k));
    }
  }

  lemma Pow2Less(j: nat, k: nat)
    requires j < k
    ensures 2 * Pow2(j) <= Pow2(k)
  {
    Pow2Add(j + 1, k - (j + 1));
    MultipleSize(Pow2(k - (j + 1)), Pow2(j + 1));
  }

  /** C's `a & b`. */
  function And(a: nat, b: nat): nat
    decreases a
  {
    if a == 0 then 0
    else 2 * And(a / 2, b / 2) + (if a % 2 == 1 && b % 2 == 1 then 1 else 0)
  }

  /** C's `a | b`. */
  function Or(a: nat, b: nat): nat
    decreases a + b
  {
    if a == 0 && b == 0 then 0
    else 2 * Or(a / 2, b / 2) + (if a % 2 == 1 || b % 2 == 1 then 1 else 0)
  }

  lemma {:induction false} OrZero(b: nat)
    ensures Or(0, b) == b
  {
    if b != 0 {
      OrZero(b / 2);
    }
  }

  /** Numbers with no bit in common are or-ed by adding them: `hi` is a multiple of 2^k
      and `lo` fits below bit k. */
  lemma {:induction false} OrDisjoint(hi: nat, lo: nat, k: nat)
    requires hi % Pow2(k) == 0 && lo < Pow2(k)
    ensures Or(hi, lo) == hi + lo
  {
    if k == 0 {
      if hi != 0 {
        OrRightZero(hi);
      }
    } else if hi == 0 {
      OrZero(lo);
    } else {
      var p := Pow2(k - 1);
      var q := hi / (2 * p);
      assert hi == 2 * (q * p);
      assert hi / 2 == q * p;
      MultipleMod(q, p);
      OrDisjoint(hi / 2, lo / 2, k - 1);
    }
  }

  lemma {:induction false} OrRightZero(a: nat)
    ensures Or(a, 0) == a
  {
    if a != 0 {
      OrRightZero(a / 2);
    }
  }

  lemma MultipleMod(q: nat, p: nat)
    requires p > 0
    ensures (q * p) % p == 0
  {
    DivModUnique(q * p, p, q, 0);
  }

  /** Quotient and remainder are determined by the division equation. */
  lemma DivModUnique(a: int, d: int, q: int, r: int)
    requires d > 0 && a == q * d + r && 0 <= r < d
    ensures a / d == q && a % d == r
  {
    var k := a / d - q;
    assert k * d == r - a % d by {
      assert a == (a / d) * d + a % d;
      assert (a / d - q) * d == (a / d) * d - q * d;
    }
    MultipleSize(k, d);
  }

  lemma MultipleSize(k: int, d: int)
    requires d > 0
    ensures k >= 1 ==> k * d >= d
    ensures k <= -1 ==> k * d <= -d
  {
    if k >= 1 {
      assert k * d == d + (k - 1) * d;
    } else if k <= -1 {
      assert k * d == -d + (k + 1) * d;
    }
  }

  /** Masking with 2^k - 1 keeps the k low bits. */
  lemma {:induction false} AndLowMask(a: nat, k: nat)
    ensures And(a, Pow2(k) - 1) == a % Pow2(k)
    decreases k
  {
    if k == 0 {
      AndZero(a);
    } else {
      var p := Pow2(k - 1);
      hide And;
      AndOdd(a, p - 1);
      AndLowMask(a / 2, k - 1);
      HalveMod(a, p);
      assert Pow2(k) - 1 == 2 * (p - 1) + 1;
    }
  }

  lemma AndOdd(a: nat, b: nat)
    ensures And(a, 2 * b + 1) == 2 * And(a / 2, b) + a % 2
  {
    assert (2 * b + 1) / 2 == b && (2 * b + 1) % 2 == 1;
  }

  lemma HalveMod(a: nat, p: nat)
    requires p > 0
    ensures a % (2 * p) == 2 * ((a / 2) % p) + a % 2
  {
    var q, r := (a / 2) / p, (a / 2) % p;
    assert a / 2 == q * p + r;
    assert q * (2 * p) == 2 * (q * p);
    DivModUnique(a, 2 * p, q, 2 * r + a % 2);
  }

  lemma {:induction false} AndZero(a: nat)
    ensures And(a, 0) == 0
  {
    if a != 0 {
      AndZero(a / 2);
    }
  }

  /** Number of bits set. */
  function Popcount(v: nat): nat {
    if v == 0 then 0 else v % 2 + Popcount(v / 2)
  }

  /** A k-bit number has at most k bits set. */
  lemma {:induction false} PopcountBound(v: nat, k: nat)
    requires v < Pow2(k)
    ensures Popcount(v) <= k
  {
    if v != 0 {
      PopcountBound(v / 2, k - 1);
    }
  }

  /** A number holding every bit of a mask has at least as many bits set as the mask. */
  lemma {:induction false} PopcountMonotone(v: nat, mask: nat)
    requires And(v, mask) == mask
    ensures Popcount(v) >= Popcount(mask)
  {
    if v == 0 {
    } else {
      PopcountMonotone(v / 2, mask / 2);
    }
  }

  /** The digits Python's `bin` prints after the `0b`, most significant first. */
  function BinDigits(v: nat): seq<nat> {
    if v < 2 then [v] else BinDigits(v / 2) + [v % 2]
  }

  function CountOnes(digits: seq<nat>): nat {
    if digits == [] then 0
    else CountOnes(digits[..|digits| - 1]) + (if digits[|digits| - 1] == 1 then 1 else 0)
  }

  /** Python's `bin(v).count("1")` is the population count. */
  lemma {:induction false} BinCountIsPopcount(v: nat)
    ensures CountOnes(BinDigits(v)) == Popcount(v)
  {
    if v < 2 {
      assert [v][..0] == [];
    } else {
      BinCountIsPopcount(v / 2);
      assert BinDigits(v)[..|BinDigits(v)| - 1] == BinDigits(v / 2);
    }
  }
}
