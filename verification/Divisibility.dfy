/** Greatest common divisors, Bezout coefficients and divisors of powers of two. */
module Divisibility {
  import opened Bits

  function Gcd(a: nat, b: nat): nat
    decreases b
  {
    if b == 0 then a else Gcd(b, a % b)
  }

  lemma MulAssoc(a: int, b: int, c: int)
    ensures (a * b) * c == a * (b * c)
  {
  }

  lemma MulDist(a: int, b: int, c: int)
    ensures (a + b) * c == a * c + b * c
  {
  }

  lemma MulCancel(k: int, a: int, b: int)
    requires k > 0 && k * a == k * b
    ensures a == b
  {
    assert k * (a - b) == 0;
    MultipleSize(a - b, k);
  }

  /** The common divisor and the cofactors that show it divides both numbers. */
  lemma {:induction false} GcdDivides(a: nat, b: nat) returns (p: nat, q: nat)
    ensures a == Gcd(a, b) * p && b == Gcd(a, b) * q
    decreases b
  {
    if b == 0 {
      p, q := 1, 0;
    } else {
      var q', r := GcdDivides(b, a % b);
      var g, k := Gcd(a, b), a / b;
      assert a == k * b + a % b;
      MulAssoc(g, q', k);
      assert g * (q' * k + r) == g * (q' * k) + g * r;
      p, q := q' * k + r, q';
    }
  }

  lemma {:induction false} Bezout(a: nat, b: nat) returns (x: int, y: int)
    ensures a * x + b * y == Gcd(a, b)
    decreases b
  {
    if b == 0 {
      x, y := 1, 0;
    } else {
      var x', y' := Bezout(b, a % b);
      var k := a / b;
      assert a % b == a - k * b;
      assert (a - k * b) * y' == a * y' - (k * b) * y';
      assert b * (x' - k * y') == b * x' - b * (k * y');
      MulAssoc(k, b, y');
      MulAssoc(b, k, y');
      assert (k * b) * y' == b * (k * y');
      x, y := y', x' - k * y';
    }
  }

  /** Every divisor of a power of two is a power of two. */
  lemma {:induction false} DivisorOfPow2(g: nat, q: nat, k: nat) returns (j: nat)
    requires g * q == Pow2(k)
    ensures j <= k && g == Pow2(j) && q == Pow2(k - j)
    decreases k, g
  {
    if k == 0 {
      assert g >= 1 && q >= 1;
      MultipleSize(g, q);
      MultipleSize(q, g);
      j := 0;
    } else if g % 2 == 0 {
      var h := g / 2;
      assert g == 2 * h;
      MulAssoc(2, h, q);
      j := DivisorOfPow2(h, q, k - 1);
      j := j + 1;
    } else {
      var h := q / 2;
      OddFactor(g, q);
      assert g * (2 * h) == 2 * (g * h);
      j := DivisorOfPow2(g, h, k - 1);
    }
  }

  /** When an odd number times q is even, q is even. */
  lemma OddFactor(g: nat, q: nat)
    requires g % 2 == 1 && (g * q) % 2 == 0
    ensures q % 2 == 0 && q == 2 * (q / 2)
  {
    var h := g / 2;
    assert g == 2 * h + 1;
    assert g * q == 2 * (h * q) + q;
  }
}
