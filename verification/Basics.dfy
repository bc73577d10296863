/** Bytes, options, and shifts of unbounded naturals, shared by the other modules. */
module Basics {
  type byte = x: int | 0 <= x < 256

  datatype Option<+T> = None | Some(value: T)

  /** m[k := v], with the type of m. */
  function With<K, V>(m: map<K, V>, k: K, v: V): map<K, V> { m[k := v] }

  /** One more than the largest 32-bit unsigned value. */
  const TWO_32: int := 0x1_0000_0000

  // Powers and shifts are defined by doubling and halving, which keeps reasoning about them linear.

  function Pow2(n: nat): (r: nat)
    ensures r > 0
  {
    if n == 0 then 1 else 2 * Pow2(n - 1)
  }

  /** v << n without a bound on the width. */
  function Shl(v: nat, n: nat): (r: nat)
  {
    if n == 0 then v else 2 * Shl(v, n - 1)
  }

  /** v >> n. */
  function Shr(v: nat, n: nat): (r: nat)
  {
    if n == 0 then v else Shr(v / 2, n - 1)
  }

  lemma {:induction false} Pow2Monotone(a: nat, b: nat)
    requires a <= b
    ensures Pow2(a) <= Pow2(b)
  {
    if a < b {
      Pow2Monotone(a, b - 1);
    }
  }

  lemma {:induction false} ShlHalf(v: nat, n: nat)
    requires n > 0
    ensures Shl(v, n) % 2 == 0 && Shl(v, n) / 2 == Shl(v, n - 1)
  {
  }

  /** An n-bit value shifted above a k-bit value makes a (k + n)-bit value. */
  lemma {:induction false} ShlBound(lo: nat, k: nat, hi: nat, n: nat)
    requires lo < Pow2(k) && hi < Pow2(n)
    ensures lo + Shl(hi, k) < Pow2(k + n)
  {
    if k > 0 {
      ShlBound(lo / 2, k - 1, hi, n);
      assert k + n - 1 == k - 1 + n;
    }
  }

  lemma Pow2Values()
    ensures Pow2(8) == 256 && Pow2(16) == 65536 && Pow2(32) == TWO_32
  {
    assert Pow2(4) == 16;
    assert Pow2(8) == 256;
    assert Pow2(12) == 4096;
    assert Pow2(16) == 65536;
    assert Pow2(20) == 0x10_0000;
    assert Pow2(24) == 0x100_0000;
    assert Pow2(28) == 0x1000_0000;
  }

  lemma {:induction false} ShrAdd(v: nat, m: nat, n: nat)
    ensures Shr(v, m + n) == Shr(Shr(v, m), n)
  {
    if m > 0 {
      ShrAdd(v / 2, m - 1, n);
      assert m + n - 1 == m - 1 + n;
    }
  }

  lemma Shr2(v: nat)
    ensures Shr(v, 2) == v / 4
  {
    assert Shr(v, 2) == Shr(v / 2, 1) == Shr(v / 2 / 2, 0);
  }

  lemma Shr8(v: nat)
    ensures Shr(v, 8) == v / 256
  {
    ShrAdd(v, 4, 4);
    ShrAdd(v, 2, 2);
    Shr2(v);
    Shr2(v / 4);
    ShrAdd(v / 16, 2, 2);
    Shr2(v / 16);
    Shr2(v / 64);
  }

  lemma Shl8(v: nat)
    ensures Shl(v, 8) == v * 256
  {
    assert Shl(v, 0) == v;
    assert Shl(v, 1) == 2 * v;
    assert Shl(v, 2) == 4 * v;
    assert Shl(v, 3) == 8 * v;
    assert Shl(v, 4) == 16 * v;
    assert Shl(v, 5) == 32 * v;
    assert Shl(v, 6) == 64 * v;
    assert Shl(v, 7) == 128 * v;
  }

  // Regrouping concatenations by lemma keeps sequence reasoning out of larger proofs.

  lemma Assoc<T>(a: seq<T>, b: seq<T>, c: seq<T>)
    ensures a + b + c == a + (b + c)
  {
  }

  lemma Assoc4<T>(a: seq<T>, b: seq<T>, c: seq<T>, d: seq<T>)
    ensures a + b + c + d == a + (b + (c + d))
  {
  }

  lemma Regroup<T>(a: seq<T>, b: seq<T>, c: seq<T>, d: seq<T>)
    ensures a + (b + c) + d == a + (b + (c + d))
  {
  }

  lemma TakeDrop<T>(a: seq<T>, b: seq<T>)
    ensures (a + b)[..|a|] == a && (a + b)[|a|..] == b
  {
  }

  lemma MulMonotone(a: int, b: int, d: int)
    requires a <= b && 0 <= d
    ensures a * d <= b * d
  {
  }

  lemma MulAssoc(a: nat, b: nat, c: nat)
    ensures a * b * c == a * (b * c)
  {
  }

  lemma MulAdd(a: nat, b: nat, c: nat)
    ensures (a + b) * c == a * c + b * c
  {
  }

  lemma MulSwap(a: nat, b: nat, c: nat)
    ensures a * b * c == a * c * b
  {
  }

  /** Quotient and remainder are the only q and r with a = q * d + r and 0 <= r < d. */
  lemma DivUnique(a: int, d: int, q: int, r: int)
    requires a == q * d + r && 0 <= r < d
    ensures a / d == q && a % d == r
  {
    var q' := a / d;
    assert a == q' * d + a % d;
    if q' < q {
      MulMonotone(q' + 1, q, d);
    } else if q < q' {
      MulMonotone(q + 1, q', d);
    }
  }
}
