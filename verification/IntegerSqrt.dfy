/** The restoring integer square root on 64-bit registers. */
module IntegerSqrt {
  import opened Bits
  import opened Words

  ghost predicate IsFloorSqrt(r: int, v: int) {
    0 <= r && r * r <= v < (r + 1) * (r + 1)
  }

  /** Reference definition: the integer square root and its remainder, found by counting up
      to `v`. Between two squares the remainder grows by one; when it reaches twice the root
      the next number is the next square. */
  ghost function RootRem(v: nat): (nat, nat) {
    if v == 0 then (0, 0)
    else
      var (root, rem) := RootRem(v - 1);
      if rem == 2 * root then (root + 1, 0) else (root, rem + 1)
  }

  ghost function FloorSqrt(v: nat): nat {
    RootRem(v).0
  }

  lemma SquareOfNext(r: int)
    ensures (r + 1) * (r + 1) == r * r + 2 * r + 1
  {
  }

  lemma {:induction false} RootRemMeaning(v: nat)
    ensures var (root, rem) := RootRem(v); root * root + rem == v && rem <= 2 * root
  {
    if v != 0 {
      RootRemMeaning(v - 1);
      SquareOfNext(RootRem(v - 1).0);
    }
  }

  lemma FloorSqrtMeaning(v: nat)
    ensures IsFloorSqrt(FloorSqrt(v), v)
  {
    RootRemMeaning(v);
    var root := FloorSqrt(v);
    SquareOfNext(root);
  }

  lemma RootRemBound(v: nat)
    ensures RootRem(v).1 <= 2 * RootRem(v).0
  {
    RootRemMeaning(v);
  }

  lemma RootRemUnique(v: nat, root: nat, rem: nat)
    requires root * root + rem == v && rem <= 2 * root
    ensures RootRem(v) == (root, rem)
  {
    RootRemMeaning(v);
    var h := RootRem(v).0;
    SquareOfNext(root);
    SquareOfNext(h);
    SquareLess(h, root + 1);
    SquareLess(root, h + 1);
  }

  lemma MulMonotone(x: int, y: int)
    requires 0 <= x <= y
    ensures x * x <= y * y
  {
    assert y * y - x * x == (y - x) * (y + x);
  }

  lemma SquareLess(x: int, y: int)
    requires y >= 0 && x * x < y * y
    ensures x < y
  {
    if x >= y {
      MulMonotone(y, x);
    }
  }

  /** Shifting the two top digits `d` out of a 64-bit register. */
  lemma ShiftOut(n: nat, d: nat, rest: nat)
    requires n == d * 0x4000_0000_0000_0000 + rest && rest < 0x4000_0000_0000_0000 && d < 4
    ensures n / 0x4000_0000_0000_0000 == d
    ensures WrapU64(n * 4) == 4 * rest
  {
  }

  lemma ScaleBound(rest: nat, weight: nat, scale: nat)
    requires rest < weight && scale > 0
    ensures rest * scale < weight * scale
  {
  }

  lemma DigitBound(low: nat, weight: nat)
    requires weight > 0 && low < 4 * weight
    ensures low == (low / weight) * weight + low % weight
    ensures low / weight < 4
  {
  }

  lemma ScaleSum(d: nat, weight: nat, rest: nat, scale: nat)
    ensures (d * weight + rest) * scale == d * (weight * scale) + rest * scale
  {
  }

  lemma Regroup(p: nat, d: nat, weight: nat, scale: nat)
    ensures (4 * weight) * scale == 4 * (weight * scale)
    ensures weight * (4 * scale) == 4 * (weight * scale)
    ensures (4 * p + d) * weight == p * (4 * weight) + d * weight
  {
  }

  /** The register `n` after `i` rounds, and the digits shifted out of its top end so far. */
  ghost function Register(val: u64, i: nat): u64 {
    if i == 0 then val else WrapU64(Register(val, i - 1) * 4)
  }

  ghost function Prefix(val: u64, i: nat): nat {
    if i == 0 then 0 else 4 * Prefix(val, i - 1) + Register(val, i - 1) / 0x4000_0000_0000_0000
  }

  /** `val` splits into the digits shifted out, of weight `weight`, and a rest `low` which
      the register carries multiplied by `scale`. */
  ghost predicate Splits(val: u64, i: nat, low: nat, weight: nat, scale: nat) {
    && low < weight && scale > 0
    && weight * scale == 0x1_0000_0000_0000_0000
    && Prefix(val, i) * weight + low == val
    && Register(val, i) == low * scale
  }

  lemma SplitsAtStart(val: u64) returns (low: nat)
    ensures Splits(val, 0, low, Pow2(64), Pow2(0))
  {
    Pow2Values();
    low := val;
  }

  lemma SplitsArithmetic(val: int, p: nat, low: nat, weight: nat, scale: nat)
    requires weight > 0 && low < 4 * weight && scale > 0
    requires (4 * weight) * scale == 0x1_0000_0000_0000_0000 && p * (4 * weight) + low == val
    ensures weight * (4 * scale) == 0x1_0000_0000_0000_0000 && low % weight < weight
    ensures (4 * p + (low * scale) / 0x4000_0000_0000_0000) * weight + low % weight == val
    ensures WrapU64((low * scale) * 4) == (low % weight) * (4 * scale)
  {
    hide WrapU64;
    var d, rest := low / weight, low % weight;
    DigitBound(low, weight);
    Regroup(p, d, weight, scale);
    Regroup(p, d, rest, scale);
    ScaleSum(d, weight, rest, scale);
    ScaleBound(rest, weight, scale);
    ShiftOut(low * scale, d, rest * scale);
  }

  lemma {:induction false} SplitsStep(val: u64, i: nat, low: nat, weight: nat, scale: nat)
    requires weight > 0 && Splits(val, i, low, 4 * weight, scale)
    ensures Splits(val, i + 1, low % weight, weight, 4 * scale)
  {
    SplitsArithmetic(val, Prefix(val, i), low, weight, scale);
  }

  lemma FourTimesPow2(k: nat)
    ensures Pow2(k + 2) == 4 * Pow2(k)
  {
    assert Pow2(k + 2) == 2 * Pow2(k + 1);
  }

  /** After `i` rounds, 2i of the 64 digits have been shifted out. */
  lemma {:induction false} SplitsAfter(val: u64, i: nat) returns (low: nat)
    requires i <= 32
    ensures Splits(val, i, low, Pow2(64 - 2 * i), Pow2(2 * i))
  {
    hide Splits;
    if i == 0 {
      low := SplitsAtStart(val);
    } else {
      low := SplitsAfter(val, i - 1);
      var weight := Pow2(64 - 2 * i);
      FourTimesPow2(64 - 2 * i);
      FourTimesPow2(2 * (i - 1));
      SplitsStep(val, i - 1, low, weight, Pow2(2 * (i - 1)));
      low := low % weight;
    }
  }

  lemma DigitsBelowFour(val: u64, i: nat)
    requires i < 32
    ensures Register(val, i) / 0x4000_0000_0000_0000 < 4
  {
  }

  lemma NothingLeft(val: u64, low: nat, scale: nat)
    requires Splits(val, 32, low, 1, scale)
    ensures Prefix(val, 32) == val
  {
    hide Prefix, Register;
  }

  lemma AllDigitsShiftedOut(val: u64)
    ensures Prefix(val, 32) == val
  {
    hide Prefix, Register, Splits;
    var low := SplitsAfter(val, 32);
    assert Pow2(64 - 2 * 32) == 1;
    NothingLeft(val, low, Pow2(2 * 32));
  }

  lemma RestoringArithmetic(prefix: nat, half: nat, rem: nat, d: nat)
    requires half * half + rem == prefix
    ensures (2 * half) * (2 * half) + (4 * rem + d) == 4 * prefix + d
    ensures (2 * half + 1) * (2 * half + 1) + (4 * rem + d) - (4 * half + 1) == 4 * prefix + d
  {
  }

  /** One round of the restoring method: two more digits `d` are brought down, and the root
      gains a digit 1 when the trial subtraction succeeds. */
  lemma RestoringStep(prefix: nat, d: nat)
    requires d < 4
    ensures var (half, rem) := RootRem(prefix);
            var brought := 4 * rem + d;
            RootRem(4 * prefix + d) ==
            if 4 * half < brought then (2 * half + 1, brought - (4 * half + 1)) else (2 * half, brought)
  {
    RootRemMeaning(prefix);
    var (half, rem) := RootRem(prefix);
    RestoringArithmetic(prefix, half, rem, d);
    if 4 * half < 4 * rem + d {
      RootRemUnique(4 * prefix + d, 2 * half + 1, 4 * rem + d - (4 * half + 1));
    } else {
      RootRemUnique(4 * prefix + d, 2 * half, 4 * rem + d);
    }
  }

  lemma RestoringRound(val: u64, i: nat)
    requires i < 32
    ensures var (half, rem) := RootRem(Prefix(val, i));
            var brought := 4 * rem + Register(val, i) / 0x4000_0000_0000_0000;
            && rem <= 2 * half
            && RootRem(Prefix(val, i + 1)) ==
               if 4 * half < brought then (2 * half + 1, brought - (4 * half + 1)) else (2 * half, brought)
  {
    RootRemBound(Prefix(val, i));
    DigitsBelowFour(val, i);
    RestoringStep(Prefix(val, i), Register(val, i) / 0x4000_0000_0000_0000);
  }

  /** The registers `root` and `rem` stay far below 2^64, so no shift of a round wraps, and the
      two digits land below the shifted remainder. */
  lemma RegistersFit(half: nat, rem: nat, d: nat, i: nat)
    requires i < 32 && half < Pow2(i) && rem <= 2 * half && d < 4
    ensures half < 0x1_0000_0000 && 2 * half + 1 < Pow2(i + 1) && Or(4 * rem, d) == 4 * rem + d
  {
    PowersOfTwo(i);
    assert Pow2(2) == 4;
    OrDisjoint(4 * rem, d, 2);
  }

  lemma PowersOfTwo(i: nat)
    requires i < 32
    ensures Pow2(i) <= 0x8000_0000
  {
    hide Pow2;
    Pow2Values();
    if i < 31 {
      Pow2Less(i, 31);
    }
  }

  /** The loop invariant of `isqrt64`: `root` is twice the integer square root of the digits
      consumed and `rem` the remainder. */
  ghost predicate AtRound(val: u64, i: nat, root: int, rem: int, n: int) {
    && n == Register(val, i)
    && root == 2 * FloorSqrt(Prefix(val, i)) && FloorSqrt(Prefix(val, i)) < Pow2(i)
    && rem == RootRem(Prefix(val, i)).1
  }

  /** One round on the registers, without the wrap-around that never happens. */
  lemma RoundOnRegisters(half: nat, rem: nat, d: nat)
    requires half < 0x1_0000_0000 && rem <= 2 * half && d < 4
    ensures WrapU64((2 * half) * 2) == 4 * half && WrapU64(4 * half + 2) == 2 * (2 * half + 1)
    ensures WrapU64(rem * 4) == 4 * rem
    ensures 4 * half < 4 * rem + d ==> WrapU64(4 * rem + d - (4 * half + 1)) == 4 * rem + d - (4 * half + 1)
  {
  }

  lemma RoundKeepsInvariant(val: u64, i: nat, root: int, rem: int, n: int)
    requires i < 32 && AtRound(val, i, root, rem, n)
    ensures var root1 := WrapU64(root * 2);
            var rem1 := Or(WrapU64(rem * 4), n / 0x4000_0000_0000_0000);
            if root1 < rem1 then AtRound(val, i + 1, WrapU64(root1 + 2), WrapU64(rem1 - (root1 + 1)), WrapU64(n * 4))
            else AtRound(val, i + 1, root1, rem1, WrapU64(n * 4))
  {
    hide RootRem, Prefix, WrapU64, Or, Pow2;
    var half, d := FloorSqrt(Prefix(val, i)), n / 0x4000_0000_0000_0000;
    DigitsBelowFour(val, i);
    RestoringRound(val, i);
    RegistersFit(half, rem, d, i);
    RoundOnRegisters(half, rem, d);
  }

  lemma AfterAllRounds(val: u64, root: int, rem: int, n: int)
    requires AtRound(val, 32, root, rem, n)
    ensures 0 <= root / 2 < 0x1_0000_0000 && root / 2 == FloorSqrt(val)
  {
    AllDigitsShiftedOut(val);
    Pow2Values();
  }

  /** `isqrt64`: binary restoring square root on wrapping 64-bit registers. */
  method Isqrt64(val: i64) returns (r: i64)
    ensures r == if val <= 0 then 0 else FloorSqrt(val)
  {
    if val <= 0 {
      return 0;
    }
    var rem: int, root: int, n: int := 0, 0, val;
    var i := 0;
    while i < 32
      invariant 0 <= i <= 32
      invariant AtRound(val, i, root, rem, n)
    {
      RoundKeepsInvariant(val, i, root, rem, n);
      root := WrapU64(root * 2);
      rem := Or(WrapU64(rem * 4), n / 0x4000_0000_0000_0000);
      n := WrapU64(n * 4);
      if root < rem {
        rem := WrapU64(rem - (root + 1));
        root := WrapU64(root + 2);
      }
      i := i + 1;
    }
    AfterAllRounds(val, root, rem, n);
    r := root / 2;
  }
}
