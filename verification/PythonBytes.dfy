/** The parts of Python's `struct` and `bytes` that the packers use. */
module PythonBytes {
  import opened Words
  import opened Bytes

  /** A packed frame, or the exception Python raises instead. */
  datatype Packed = Frame(bytes: seq<byte>) | ValueError | StructError | AssertionError | OSError

  predicate FitsU8(v: int) { 0 <= v < 0x100 }
  predicate FitsU16(v: int) { 0 <= v < 0x1_0000 }
  predicate FitsU32(v: int) { 0 <= v < 0x1_0000_0000 }
  predicate FitsU64(v: int) { 0 <= v < 0x1_0000_0000_0000_0000 }

  /** `struct`'s "<n>s": cut or zero-padded to n bytes. */
  function Fit(s: seq<byte>, n: nat): (r: seq<byte>)
    ensures |r| == n
  {
    if |s| >= n then s[..n] else s + Zeros(n - |s|)
  }

  function Ljust(s: seq<byte>, n: nat): (r: seq<byte>)
    ensures |r| == if |s| >= n then |s| else n
  {
    if |s| >= n then s else s + Zeros(n - |s|)
  }

  function Join(parts: seq<seq<byte>>): seq<byte> {
    if parts == [] then [] else parts[0] + Join(parts[1..])
  }

  lemma {:induction false} JoinLength(parts: seq<seq<byte>>, n: nat)
    requires forall i :: 0 <= i < |parts| ==> |parts[i]| == n
    ensures |Join(parts)| == |parts| * n
  {
    if parts != [] {
      JoinLength(parts[1..], n);
    }
  }

  /** Part i of the joined bytes, for parts of equal length. */
  lemma {:induction false} JoinAt(parts: seq<seq<byte>>, n: nat, i: nat)
    requires forall k :: 0 <= k < |parts| ==> |parts[k]| == n
    requires i < |parts|
    ensures |Join(parts)| == |parts| * n && (i + 1) * n <= |parts| * n && i * n <= (i + 1) * n
    ensures Join(parts)[i * n..(i + 1) * n] == parts[i]
  {
    JoinLength(parts, n);
    JoinBounds(i, |parts|, n);
    var rest := Join(parts[1..]);
    assert Join(parts) == parts[0] + rest;
    if i == 0 {
      assert Join(parts)[0..n] == parts[0];
    } else {
      JoinAt(parts[1..], n, i - 1);
      assert (i - 1) * n == i * n - n && (i + 1) * n == i * n + n;
      DropFirst(parts[0], rest, (i - 1) * n, i * n);
    }
  }

  lemma {:induction false} JoinSnoc(parts: seq<seq<byte>>, last: seq<byte>)
    ensures Join(parts + [last]) == Join(parts) + last
  {
    if parts == [] {
      assert Join([last]) == last + Join([last][1..]);
    } else {
      assert (parts + [last])[1..] == parts[1..] + [last];
      JoinSnoc(parts[1..], last);
    }
  }

  lemma JoinBounds(i: nat, m: nat, n: nat)
    requires i < m
    ensures (i + 1) * n <= m * n && i * n <= (i + 1) * n
  {
  }

  lemma DropFirst(a: seq<byte>, b: seq<byte>, i: nat, j: nat)
    requires i <= j <= |b|
    ensures (a + b)[|a| + i..|a| + j] == b[i..j]
  {
  }
}
