/** The compressor's Adler-32 loop: 32-bit sums, reduced modulo 65521 only at the end of a block of 5552 bytes. */
module Adler32 {
  import opened Basics
  import opened Inflate

  const NMAX: nat := 5552

  function Triangle(n: nat): (t: nat)
  {
    if n == 0 then 0 else Triangle(n - 1) + n
  }

  lemma {:induction false} TriangleFormula(n: nat)
    ensures 2 * Triangle(n) == n * (n + 1)
  {
    if n > 0 {
      TriangleFormula(n - 1);
      assert (n - 1) * n + 2 * n == n * (n + 1);
    }
  }

  lemma {:induction false} TriangleMonotone(m: nat, n: nat)
    requires m <= n
    ensures Triangle(m) <= Triangle(n)
  {
    if m < n {
      TriangleMonotone(m, n - 1);
    }
  }

  /** Starting a block reduced, the sums after i of its bytes are still 32-bit values. */
  lemma NoWrap(i: nat)
    requires i <= NMAX
    ensures 65520 + 255 * i < TWO_32
    ensures 65520 * (i + 1) + 255 * Triangle(i) < TWO_32
  {
    TriangleFormula(NMAX);
    TriangleMonotone(i, NMAX);
  }

  lemma ModAdd(a: int, b: int, m: int)
    requires m > 0
    ensures (a % m + b) % m == (a + b) % m
  {
    var q := a / m;
    assert a == q * m + a % m;
    var r := a % m + b;
    assert r == r / m * m + r % m;
    assert a + b == q * m + r / m * m + r % m == (q + r / m) * m + r % m;
    DivUnique(a + b, m, q + r / m, r % m);
  }

  /** One byte added without reduction agrees with the definition modulo 65521. */
  lemma AddByte(data: seq<byte>, n: nat, s1: nat, s2: nat)
    requires n < |data|
    requires (s1 % 65521, s2 % 65521) == AdlerSums(data[..n])
    ensures ((s1 + data[n]) % 65521, (s2 + (s1 + data[n])) % 65521) == AdlerSums(data[..n + 1])
  {
    assert data[..n + 1][..n] == data[..n];
    var s1' := s1 + data[n];
    ModAdd(s1, data[n], 65521);
    ModAdd(s2, s1' % 65521, 65521);
    ModAdd(s1', s2, 65521);
  }

  /** After i bytes of a block that began reduced. */
  predicate Within(i: nat, t1: nat, t2: nat) {
    t1 <= 65520 + 255 * i && t2 <= 65520 * (i + 1) + 255 * Triangle(i)
  }

  /** Unsigned 32-bit addition. */
  function Add32(a: nat, b: nat): nat { (a + b) % TWO_32 }

  lemma AddWithin(i: nat, t1: nat, t2: nat, b: byte)
    requires i < NMAX && Within(i, t1, t2)
    ensures Add32(t1, b) == t1 + b
    ensures Add32(t2, t1 + b) == t2 + (t1 + b)
    ensures Within(i + 1, t1 + b, t2 + (t1 + b))
  {
    NoWrap(i + 1);
  }

  /** After i bytes of the block at j. */
  predicate InBlock(data: seq<byte>, j: nat, i: nat, t1: nat, t2: nat) {
    && j + i <= |data| && i <= NMAX
    && Within(i, t1, t2)
    && (t1 % 65521, t2 % 65521) == AdlerSums(data[..j + i])
  }

  lemma BlockStep(data: seq<byte>, j: nat, i: nat, t1: nat, t2: nat)
    requires InBlock(data, j, i, t1, t2) && i < NMAX && j + i < |data|
    ensures InBlock(data, j, i + 1, Add32(t1, data[j + i]), Add32(t2, Add32(t1, data[j + i])))
  {
    AddWithin(i, t1, t2, data[j + i]);
    AddByte(data, j + i, t1, t2);
  }

  /** The inner loop: `blocklen` bytes from j on, summed in 32 bits without reduction. */
  method SumBlock(data: seq<byte>, j: nat, blocklen: nat, s1: nat, s2: nat) returns (t1: nat, t2: nat)
    requires blocklen <= NMAX && j + blocklen <= |data|
    requires InBlock(data, j, 0, s1, s2)
    ensures InBlock(data, j, blocklen, t1, t2)
  {
    t1, t2 := s1, s2;
    for i := 0 to blocklen
      invariant InBlock(data, j, i, t1, t2)
    {
      BlockStep(data, j, i, t1, t2);
      t1 := Add32(t1, data[j + i]);
      t2 := Add32(t2, t1);
    }
  }

  method Adler(data: seq<byte>) returns (s1: nat, s2: nat)
    ensures (s1, s2) == AdlerSums(data)
  {
    s1, s2 := 1, 0;
    var blocklen: nat, j: nat := |data| % NMAX, 0;
    ghost var blocks := |data| / NMAX;
    while j < |data|
      invariant s1 < 65521 && s2 < 65521 && blocklen <= NMAX && -1 <= blocks
      invariant |data| - j == blocklen + NMAX * blocks
      invariant blocks == -1 ==> blocklen == NMAX
      invariant j <= |data| && (s1, s2) == AdlerSums(data[..j])
      decreases blocks + 1
    {
      assert j + 0 == j;
      s1, s2 := SumBlock(data, j, blocklen, s1, s2);
      s1 := s1 % 65521;
      s2 := s2 % 65521;
      j := j + blocklen;
      blocklen := NMAX;
      blocks := blocks - 1;
    }
    assert data[..j] == data;
  }
}
