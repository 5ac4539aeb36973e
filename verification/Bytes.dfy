/** Little-endian numbers inside byte strings, and writes into a memory page. */
module Bytes {
  import opened Words

  function Pow256(n: nat): (p: nat)
    ensures p > 0
  {
    if n == 0 then 1 else 256 * Pow256(n - 1)
  }

  /** The n low-order bytes of v, least significant first. */
  function LE(v: nat, n: nat): (s: seq<byte>)
    ensures |s| == n
    decreases n
  {
    if n == 0 then [] else [v % 256] + LE(v / 256, n - 1)
  }

  function FromLE(s: seq<byte>): nat {
    if s == [] then 0 else s[0] + 256 * FromLE(s[1..])
  }

  lemma {:induction false} FromLEBound(s: seq<byte>)
    ensures FromLE(s) < Pow256(|s|)
  {
    if s != [] {
      FromLEBound(s[1..]);
    }
  }

  lemma {:induction false} FromLEOfLE(v: nat, n: nat)
    requires v < Pow256(n)
    ensures FromLE(LE(v, n)) == v
    decreases n
  {
    if n != 0 {
      FromLEOfLE(v / 256, n - 1);
      assert LE(v, n)[1..] == LE(v / 256, n - 1);
    }
  }

  lemma LowDigit(low: byte, rest: nat)
    ensures var v := (low as int) + 256 * rest; v % 256 == low && v / 256 == rest
  {
  }

  lemma {:induction false} LEOfFromLE(s: seq<byte>)
    ensures LE(FromLE(s), |s|) == s
  {
    if s != [] {
      LEOfFromLE(s[1..]);
      LowDigit(s[0], FromLE(s[1..]));
      assert s == [s[0]] + s[1..];
    }
  }

  lemma Pow256Values()
    ensures Pow256(1) == 0x100 && Pow256(2) == 0x1_0000 && Pow256(4) == 0x1_0000_0000
    ensures Pow256(8) == 0x1_0000_0000_0000_0000
  {
    assert Pow256(4) == 256 * Pow256(3) == 0x1_0000_0000;
    assert Pow256(6) == 256 * Pow256(5) == 0x1_0000_0000_0000;
    assert Pow256(8) == 256 * Pow256(7);
  }

  function Zeros(n: nat): (s: seq<byte>)
    ensures |s| == n
  {
    seq(n, i => 0)
  }

  function U16At(s: seq<byte>, off: nat): u16
    requires off + 2 <= |s|
  {
    FromLEBound(s[off..off + 2]);
    Pow256Values();
    FromLE(s[off..off + 2])
  }

  function U32At(s: seq<byte>, off: nat): u32
    requires off + 4 <= |s|
  {
    FromLEBound(s[off..off + 4]);
    Pow256Values();
    FromLE(s[off..off + 4])
  }

  function U64At(s: seq<byte>, off: nat): u64
    requires off + 8 <= |s|
  {
    FromLEBound(s[off..off + 8]);
    Pow256Values();
    FromLE(s[off..off + 8])
  }

  /** A field read where it was written. */
  lemma ReadU16(s: seq<byte>, off: nat, v: u16)
    requires off + 2 <= |s| && s[off..off + 2] == LE(v, 2)
    ensures U16At(s, off) == v
  {
    Pow256Values();
    FromLEOfLE(v, 2);
  }

  lemma ReadU32(s: seq<byte>, off: nat, v: u32)
    requires off + 4 <= |s| && s[off..off + 4] == LE(v, 4)
    ensures U32At(s, off) == v
  {
    Pow256Values();
    FromLEOfLE(v, 4);
  }

  lemma ReadU64(s: seq<byte>, off: nat, v: u64)
    requires off + 8 <= |s| && s[off..off + 8] == LE(v, 8)
    ensures U64At(s, off) == v
  {
    Pow256Values();
    FromLEOfLE(v, 8);
  }

  /** A 32-bit field is its low and high 16-bit halves. */
  lemma {:induction false} Halves(s: seq<byte>, off: nat)
    requires off + 4 <= |s|
    ensures U32At(s, off) == U16At(s, off) + 0x1_0000 * U16At(s, off + 2)
  {
    var t := s[off..off + 4];
    assert t[1..][1..] == s[off + 2..off + 4];
    assert FromLE(t) == t[0] + 256 * (t[1] + 256 * FromLE(s[off + 2..off + 4]));
    var u := s[off..off + 2];
    assert u[1..][1..] == [];
    assert FromLE(u) == u[0] + 256 * FromLE(u[1..]) && FromLE(u[1..]) == u[1];
  }

  lemma SliceOfSlice(s: seq<byte>, a: nat, b: nat, i: nat, j: nat)
    requires a <= b <= |s| && i <= j <= b - a
    ensures s[a..b][i..j] == s[a + i..a + j]
  {
    var t := s[a..b];
    assert forall k :: 0 <= k < b - a ==> t[k] == s[a + k];
    assert t[i..j] == s[a + i..a + j];
  }

  /** `s` with `data` written over it at `off`. */
  function Splice(s: seq<byte>, off: nat, data: seq<byte>): (r: seq<byte>)
    requires off + |data| <= |s|
    ensures |r| == |s|
    ensures forall i :: 0 <= i < |s| ==> r[i] == if off <= i < off + |data| then data[i - off] else s[i]
  {
    s[..off] + data + s[off + |data|..]
  }

  /** A write leaves alone what lies beside it. */
  lemma SpliceElsewhere(s: seq<byte>, off: nat, data: seq<byte>, at: nat, n: nat)
    requires off + |data| <= |s| && at + n <= |s|
    requires at + n <= off || off + |data| <= at
    ensures Splice(s, off, data)[at..at + n] == s[at..at + n]
  {
  }

  /** What is read inside a write comes from the data written. */
  lemma SpliceWithin(s: seq<byte>, off: nat, data: seq<byte>, at: nat, n: nat)
    requires off + |data| <= |s| && at + n <= |data|
    ensures Splice(s, off, data)[off + at..off + at + n] == data[at..at + n]
  {
  }

  /** `memcpy` into a buffer, or a write into a mapped page. */
  method Write(mem: array<byte>, off: nat, data: seq<byte>)
    requires off + |data| <= mem.Length
    modifies mem
    ensures mem[..] == Splice(old(mem[..]), off, data)
  {
    var i := 0;
    while i < |data|
      invariant 0 <= i <= |data|
      invariant forall k :: 0 <= k < mem.Length ==>
                  mem[k] == if off <= k < off + i then data[k - off] else old(mem[k])
    {
      mem[off + i] := data[i];
      i := i + 1;
    }
  }
}
