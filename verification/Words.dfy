/** Fixed-width machine integers, kept as ranges of the unbounded integers, with the
    wrap-around of C arithmetic written out. */
module Words {
  import opened Bits


  type byte = x: int | 0 <= x < 256
  type u16 = x: int | 0 <= x < 0x1_0000
  type u32 = x: int | 0 <= x < 0x1_0000_0000
  type u64 = x: int | 0 <= x < 0x1_0000_0000_0000_0000
  type i64 = x: int | -0x8000_0000_0000_0000 <= x < 0x8000_0000_0000_0000

  function WrapU64(x: int): (w: int)
    ensures 0 <= w < 0x1_0000_0000_0000_0000
    ensures 0 <= x < 0x1_0000_0000_0000_0000 ==> w == x
  {
    x % 0x1_0000_0000_0000_0000
  }

  /** Two's-complement reduction to 64 bits. */
  function WrapI64(x: int): (w: int)
    ensures -0x8000_0000_0000_0000 <= w < 0x8000_0000_0000_0000
    ensures -0x8000_0000_0000_0000 <= x < 0x8000_0000_0000_0000 ==> w == x
  {
    var m := x % 0x1_0000_0000_0000_0000;
    if m < 0x8000_0000_0000_0000 then m else m - 0x1_0000_0000_0000_0000
  }

  lemma WrapI64Congruent(x: int)
    ensures exists k :: WrapI64(x) == x + k * 0x1_0000_0000_0000_0000
  {
    var m := x % 0x1_0000_0000_0000_0000;
    var q := x / 0x1_0000_0000_0000_0000;
    assert x == q * 0x1_0000_0000_0000_0000 + m;
    if m < 0x8000_0000_0000_0000 {
      assert WrapI64(x) == x + (-q) * 0x1_0000_0000_0000_0000;
    } else {
      assert WrapI64(x) == x + (-q - 1) * 0x1_0000_0000_0000_0000;
    }
  }

  /** Numbers that differ by a multiple of 2^64 have the same reduction. */
  lemma WrapI64Shift(x: int, k: int)
    ensures WrapI64(x + k * 0x1_0000_0000_0000_0000) == WrapI64(x)
  {
    DivModUnique(x + k * 0x1_0000_0000_0000_0000, 0x1_0000_0000_0000_0000, x / 0x1_0000_0000_0000_0000 + k,
      x % 0x1_0000_0000_0000_0000);
  }

  /** The powers of two that the source writes as constants. */
  lemma Pow2Values()
    ensures Pow2(2) == 4 && Pow2(10) == 0x400 && Pow2(13) == 0x2000 && Pow2(19) == 0x8_0000
    ensures Pow2(21) == 0x20_0000 && Pow2(22) == 0x40_0000 && Pow2(23) == 0x80_0000
    ensures Pow2(24) == 0x100_0000 && Pow2(26) == 0x400_0000 && Pow2(31) == 0x8000_0000
    ensures Pow2(32) == 0x1_0000_0000 && Pow2(40) == 0x100_0000_0000 && Pow2(64) == 0x1_0000_0000_0000_0000
  {
    assert Pow2(2) == 4 && Pow2(3) == 8 && Pow2(8) == 256 && Pow2(5) == 32;
    Pow2Add(8, 2);
    Pow2Add(10, 3);
    Pow2Add(8, 8);
    Pow2Add(16, 3);
    Pow2Add(16, 5);
    Pow2Add(19, 3);
    Pow2Add(13, 10);
    Pow2Add(16, 8);
    Pow2Add(16, 10);
    Pow2Add(26, 5);
    Pow2Add(16, 16);
    Pow2Add(32, 8);
    Pow2Add(32, 32);
  }
}
