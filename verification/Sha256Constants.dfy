/**
 Where the constants of SHA-256 come from: sections 4.2.2 and 5.3.3 of FIPS 180-4 define them as the first 32 bits of the
 fractional parts of the cube roots of the first 64 primes, and of the square roots of the first eight.
 */
module Sha256Constants {
  import opened Basics
  import opened Sha256Spec

  // ----- Primes, and how many there are below -----

  ghost predicate IsPrime(p: nat) {
    p >= 2 && forall d | 2 <= d < p :: !Factor(d, p)
  }

  predicate Factor(d: nat, p: nat)
    requires d > 0
  {
    p % d == 0
  }

  ghost function PrimesBelow(n: nat): nat {
    if n == 0 then 0 else PrimesBelow(n - 1) + if IsPrime(n - 1) then 1 else 0
  }

  /** The prime with this number, counted from 0. */
  ghost predicate NthPrime(p: nat, t: nat) {
    IsPrime(p) && PrimesBelow(p) == t
  }

  /** No factor among the primes below 18. */
  predicate Sieved(n: nat) {
    n % 2 != 0 && n % 3 != 0 && n % 5 != 0 && n % 7 != 0 && n % 11 != 0 && n % 13 != 0 && n % 17 != 0
  }

  lemma FactorOfFactor(a: nat, d: nat, n: nat)
    requires a > 0 && d > 0 && Factor(a, d) && Factor(d, n)
    ensures Factor(a, n)
  {
    var p, q := d / a, n / d;
    assert d == p * a && n == q * d;
    MulAssoc(q, p, a);
    DivUnique(n, a, q * p, 0);
  }

  lemma SmallFactor(n: nat, d: nat)
    requires 2 <= d < 18 && Factor(d, n)
    ensures !Sieved(n)
  {
    var a := if d % 2 == 0 then 2 else if d % 3 == 0 then 3 else d;
    FactorOfFactor(a, d, n);
  }

  /** Up to 18 * 18 the sieve finds just the primes. */
  lemma SievedIff(n: nat)
    requires 18 <= n < 324
    ensures Sieved(n) <==> IsPrime(n)
  {
    if Sieved(n) {
      forall d | 2 <= d < n
        ensures !Factor(d, n)
      {
        if Factor(d, n) {
          var a := if d < 18 then d else n / d;
          if d >= 18 {
            Cofactor(n, d);
          }
          SmallFactor(n, a);
        }
      }
    } else {
      assert Factor(2, n) || Factor(3, n) || Factor(5, n) || Factor(7, n) || Factor(11, n) || Factor(13, n) || Factor(17, n);
    }
  }

  lemma Cofactor(n: nat, d: nat)
    requires 18 <= d < n < 324 && Factor(d, n)
    ensures 2 <= n / d < 18 && Factor(n / d, n)
  {
    var q := n / d;
    assert n == q * d;
    if q >= 18 {
      MulMonotone(18, q, d);
    }
    if q < 2 {
      MulMonotone(q, 1, d);
    }
    DivUnique(n, q, d, 0);
  }

  /** From one prime to the next one. */
  lemma {:induction false} NextPrime(p: nat, q: nat, t: nat)
    requires NthPrime(p, t) && p < q && IsPrime(q) && forall n | p < n < q :: !IsPrime(n)
    ensures NthPrime(q, t + 1)
  {
    hide IsPrime;
    PrimesBetween(p, q, t);
  }

  lemma {:induction false} PrimesBetween(p: nat, q: nat, t: nat)
    requires NthPrime(p, t) && p < q && forall n | p < n < q :: !IsPrime(n)
    ensures PrimesBelow(q) == t + 1
  {
    hide IsPrime;
    if q > p + 1 {
      PrimesBetween(p, q - 1, t);
    }
  }

  /** No odd number between p and q, at most 14 apart, is left by the sieve. */
  predicate NoneSieved(p: nat, q: nat) {
    && p % 2 == 1 && q <= p + 14
    && (p + 2 < q ==> !Sieved(p + 2)) && (p + 4 < q ==> !Sieved(p + 4)) && (p + 6 < q ==> !Sieved(p + 6))
    && (p + 8 < q ==> !Sieved(p + 8)) && (p + 10 < q ==> !Sieved(p + 10)) && (p + 12 < q ==> !Sieved(p + 12))
  }

  lemma NotSieved(p: nat, q: nat, n: nat)
    requires NoneSieved(p, q) && p < n < q
    ensures !Sieved(n)
  {
    assert n % 2 == 0 || n == p + 2 || n == p + 4 || n == p + 6 || n == p + 8 || n == p + 10 || n == p + 12;
  }

  lemma Next(p: nat, q: nat, t: nat)
    requires NthPrime(p, t) && 17 <= p < q < 324 && Sieved(q) && NoneSieved(p, q)
    ensures NthPrime(q, t + 1)
  {
    hide Sieved, IsPrime, NthPrime, NoneSieved;
    SievedIff(q);
    forall n | p < n < q
      ensures !IsPrime(n)
    {
      NotSieved(p, q, n);
      SievedIff(n);
    }
    NextPrime(p, q, t);
  }

  lemma FirstPrimes()
    ensures NthPrime(2, 0) && NthPrime(3, 1) && NthPrime(5, 2) && NthPrime(7, 3)
    ensures NthPrime(11, 4) && NthPrime(13, 5) && NthPrime(17, 6)
  {
    SmallPrimes();
    assert PrimesBelow(2) == 0;
    NextPrime(2, 3, 0);
    NextPrime(3, 5, 1);
    NextPrime(5, 7, 2);
    NextPrime(7, 11, 3);
    NextPrime(11, 13, 4);
    NextPrime(13, 17, 5);
  }

  lemma SmallPrimes()
    ensures forall n | n < 18 :: IsPrime(n) <==> n in {2, 3, 5, 7, 11, 13, 17}
  {
    assert Factor(2, 4) && Factor(2, 6) && Factor(2, 8) && Factor(3, 9) && Factor(2, 10) && Factor(2, 12) && Factor(2, 14);
    assert Factor(3, 15) && Factor(2, 16);
  }

  lemma Primes0()
    ensures NthPrime(2, 0) && NthPrime(3, 1) && NthPrime(5, 2) && NthPrime(7, 3)
    ensures NthPrime(11, 4) && NthPrime(13, 5) && NthPrime(17, 6) && NthPrime(19, 7)
  {
    hide NthPrime;
    FirstPrimes();
    Next(17, 19, 6);
  }

  lemma Primes1()
    ensures NthPrime(23, 8) && NthPrime(29, 9) && NthPrime(31, 10) && NthPrime(37, 11)
    ensures NthPrime(41, 12) && NthPrime(43, 13) && NthPrime(47, 14) && NthPrime(53, 15)
  {
    hide NthPrime;
    Primes0();
    Next(19, 23, 7);
    Next(23, 29, 8);
    Next(29, 31, 9);
    Next(31, 37, 10);
    Next(37, 41, 11);
    Next(41, 43, 12);
    Next(43, 47, 13);
    Next(47, 53, 14);
  }

  lemma Primes2()
    ensures NthPrime(59, 16) && NthPrime(61, 17) && NthPrime(67, 18) && NthPrime(71, 19)
    ensures NthPrime(73, 20) && NthPrime(79, 21) && NthPrime(83, 22) && NthPrime(89, 23)
  {
    hide NthPrime;
    Primes1();
    Next(53, 59, 15);
    Next(59, 61, 16);
    Next(61, 67, 17);
    Next(67, 71, 18);
    Next(71, 73, 19);
    Next(73, 79, 20);
    Next(79, 83, 21);
    Next(83, 89, 22);
  }

  lemma Primes3()
    ensures NthPrime(97, 24) && NthPrime(101, 25) && NthPrime(103, 26) && NthPrime(107, 27)
    ensures NthPrime(109, 28) && NthPrime(113, 29) && NthPrime(127, 30) && NthPrime(131, 31)
  {
    hide NthPrime;
    Primes2();
    Next(89, 97, 23);
    Next(97, 101, 24);
    Next(101, 103, 25);
    Next(103, 107, 26);
    Next(107, 109, 27);
    Next(109, 113, 28);
    Next(113, 127, 29);
    Next(127, 131, 30);
  }

  lemma Primes4()
    ensures NthPrime(137, 32) && NthPrime(139, 33) && NthPrime(149, 34) && NthPrime(151, 35)
    ensures NthPrime(157, 36) && NthPrime(163, 37) && NthPrime(167, 38) && NthPrime(173, 39)
  {
    hide NthPrime;
    Primes3();
    Next(131, 137, 31);
    Next(137, 139, 32);
    Next(139, 149, 33);
    Next(149, 151, 34);
    Next(151, 157, 35);
    Next(157, 163, 36);
    Next(163, 167, 37);
    Next(167, 173, 38);
  }

  lemma Primes5()
    ensures NthPrime(179, 40) && NthPrime(181, 41) && NthPrime(191, 42) && NthPrime(193, 43)
    ensures NthPrime(197, 44) && NthPrime(199, 45) && NthPrime(211, 46) && NthPrime(223, 47)
  {
    hide NthPrime;
    Primes4();
    Next(173, 179, 39);
    Next(179, 181, 40);
    Next(181, 191, 41);
    Next(191, 193, 42);
    Next(193, 197, 43);
    Next(197, 199, 44);
    Next(199, 211, 45);
    Next(211, 223, 46);
  }

  lemma Primes6()
    ensures NthPrime(227, 48) && NthPrime(229, 49) && NthPrime(233, 50) && NthPrime(239, 51)
    ensures NthPrime(241, 52) && NthPrime(251, 53) && NthPrime(257, 54) && NthPrime(263, 55)
  {
    hide NthPrime;
    Primes5();
    Next(223, 227, 47);
    Next(227, 229, 48);
    Next(229, 233, 49);
    Next(233, 239, 50);
    Next(239, 241, 51);
    Next(241, 251, 52);
    Next(251, 257, 53);
    Next(257, 263, 54);
  }

  lemma Primes7()
    ensures NthPrime(269, 56) && NthPrime(271, 57) && NthPrime(277, 58) && NthPrime(281, 59)
    ensures NthPrime(283, 60) && NthPrime(293, 61) && NthPrime(307, 62) && NthPrime(311, 63)
  {
    hide NthPrime;
    Primes6();
    Next(263, 269, 55);
    Next(269, 271, 56);
    Next(271, 277, 57);
    Next(277, 281, 58);
    Next(281, 283, 59);
    Next(283, 293, 60);
    Next(293, 307, 61);
    Next(307, 311, 62);
  }

  // ----- Roots -----

  const TWO_96: int := 0x1_0000_0000_0000_0000_0000_0000

  /** These are the first 32 bits of the fraction of the cube root of p: x is the root, times 2^32 and rounded down. */
  ghost predicate CubeRootBits(k: bv32, p: nat) {
    exists x: nat :: IsCubeRoot(x, p) && x % TWO_32 == k as nat
  }

  predicate IsCubeRoot(x: nat, p: nat) { x * x * x <= p * TWO_96 < (x + 1) * (x + 1) * (x + 1) }

  ghost predicate SquareRootBits(k: bv32, p: nat) {
    exists x: nat :: IsSquareRoot(x, p) && x % TWO_32 == k as nat
  }

  predicate IsSquareRoot(x: nat, p: nat) { x * x <= p * TWO_64 < (x + 1) * (x + 1) }

  lemma Roots0()
    ensures CubeRootBits(K(0), 2) && CubeRootBits(K(1), 3) && CubeRootBits(K(2), 5) && CubeRootBits(K(3), 7)
  {
    assert IsCubeRoot(0x1428a2f98, 2) && 0x1428a2f98 % TWO_32 == K(0) as nat;
    assert IsCubeRoot(0x171374491, 3) && 0x171374491 % TWO_32 == K(1) as nat;
    assert IsCubeRoot(0x1b5c0fbcf, 5) && 0x1b5c0fbcf % TWO_32 == K(2) as nat;
    assert IsCubeRoot(0x1e9b5dba5, 7) && 0x1e9b5dba5 % TWO_32 == K(3) as nat;
  }

  lemma Roots1()
    ensures CubeRootBits(K(4), 11) && CubeRootBits(K(5), 13) && CubeRootBits(K(6), 17) && CubeRootBits(K(7), 19)
  {
    assert IsCubeRoot(0x23956c25b, 11) && 0x23956c25b % TWO_32 == K(4) as nat;
    assert IsCubeRoot(0x259f111f1, 13) && 0x259f111f1 % TWO_32 == K(5) as nat;
    assert IsCubeRoot(0x2923f82a4, 17) && 0x2923f82a4 % TWO_32 == K(6) as nat;
    assert IsCubeRoot(0x2ab1c5ed5, 19) && 0x2ab1c5ed5 % TWO_32 == K(7) as nat;
  }

  lemma Roots2()
    ensures CubeRootBits(K(8), 23) && CubeRootBits(K(9), 29) && CubeRootBits(K(10), 31) && CubeRootBits(K(11), 37)
  {
    assert IsCubeRoot(0x2d807aa98, 23) && 0x2d807aa98 % TWO_32 == K(8) as nat;
    assert IsCubeRoot(0x312835b01, 29) && 0x312835b01 % TWO_32 == K(9) as nat;
    assert IsCubeRoot(0x3243185be, 31) && 0x3243185be % TWO_32 == K(10) as nat;
    assert IsCubeRoot(0x3550c7dc3, 37) && 0x3550c7dc3 % TWO_32 == K(11) as nat;
  }

  lemma Roots3()
    ensures CubeRootBits(K(12), 41) && CubeRootBits(K(13), 43) && CubeRootBits(K(14), 47) && CubeRootBits(K(15), 53)
  {
    assert IsCubeRoot(0x372be5d74, 41) && 0x372be5d74 % TWO_32 == K(12) as nat;
    assert IsCubeRoot(0x380deb1fe, 43) && 0x380deb1fe % TWO_32 == K(13) as nat;
    assert IsCubeRoot(0x39bdc06a7, 47) && 0x39bdc06a7 % TWO_32 == K(14) as nat;
    assert IsCubeRoot(0x3c19bf174, 53) && 0x3c19bf174 % TWO_32 == K(15) as nat;
  }

  lemma Roots4()
    ensures CubeRootBits(K(16), 59) && CubeRootBits(K(17), 61) && CubeRootBits(K(18), 67) && CubeRootBits(K(19), 71)
  {
    assert IsCubeRoot(0x3e49b69c1, 59) && 0x3e49b69c1 % TWO_32 == K(16) as nat;
    assert IsCubeRoot(0x3efbe4786, 61) && 0x3efbe4786 % TWO_32 == K(17) as nat;
    assert IsCubeRoot(0x40fc19dc6, 67) && 0x40fc19dc6 % TWO_32 == K(18) as nat;
    assert IsCubeRoot(0x4240ca1cc, 71) && 0x4240ca1cc % TWO_32 == K(19) as nat;
  }

  lemma Roots5()
    ensures CubeRootBits(K(20), 73) && CubeRootBits(K(21), 79) && CubeRootBits(K(22), 83) && CubeRootBits(K(23), 89)
  {
    assert IsCubeRoot(0x42de92c6f, 73) && 0x42de92c6f % TWO_32 == K(20) as nat;
    assert IsCubeRoot(0x44a7484aa, 79) && 0x44a7484aa % TWO_32 == K(21) as nat;
    assert IsCubeRoot(0x45cb0a9dc, 83) && 0x45cb0a9dc % TWO_32 == K(22) as nat;
    assert IsCubeRoot(0x476f988da, 89) && 0x476f988da % TWO_32 == K(23) as nat;
  }

  lemma Roots6()
    ensures CubeRootBits(K(24), 97) && CubeRootBits(K(25), 101) && CubeRootBits(K(26), 103) && CubeRootBits(K(27), 107)
  {
    assert IsCubeRoot(0x4983e5152, 97) && 0x4983e5152 % TWO_32 == K(24) as nat;
    assert IsCubeRoot(0x4a831c66d, 101) && 0x4a831c66d % TWO_32 == K(25) as nat;
    assert IsCubeRoot(0x4b00327c8, 103) && 0x4b00327c8 % TWO_32 == K(26) as nat;
    assert IsCubeRoot(0x4bf597fc7, 107) && 0x4bf597fc7 % TWO_32 == K(27) as nat;
  }

  lemma Roots7()
    ensures CubeRootBits(K(28), 109) && CubeRootBits(K(29), 113) && CubeRootBits(K(30), 127) && CubeRootBits(K(31), 131)
  {
    assert IsCubeRoot(0x4c6e00bf3, 109) && 0x4c6e00bf3 % TWO_32 == K(28) as nat;
    assert IsCubeRoot(0x4d5a79147, 113) && 0x4d5a79147 % TWO_32 == K(29) as nat;
    assert IsCubeRoot(0x506ca6351, 127) && 0x506ca6351 % TWO_32 == K(30) as nat;
    assert IsCubeRoot(0x514292967, 131) && 0x514292967 % TWO_32 == K(31) as nat;
  }

  lemma Roots8()
    ensures CubeRootBits(K(32), 137) && CubeRootBits(K(33), 139) && CubeRootBits(K(34), 149) && CubeRootBits(K(35), 151)
  {
    assert IsCubeRoot(0x527b70a85, 137) && 0x527b70a85 % TWO_32 == K(32) as nat;
    assert IsCubeRoot(0x52e1b2138, 139) && 0x52e1b2138 % TWO_32 == K(33) as nat;
    assert IsCubeRoot(0x54d2c6dfc, 149) && 0x54d2c6dfc % TWO_32 == K(34) as nat;
    assert IsCubeRoot(0x553380d13, 151) && 0x553380d13 % TWO_32 == K(35) as nat;
  }

  lemma Roots9()
    ensures CubeRootBits(K(36), 157) && CubeRootBits(K(37), 163) && CubeRootBits(K(38), 167) && CubeRootBits(K(39), 173)
  {
    assert IsCubeRoot(0x5650a7354, 157) && 0x5650a7354 % TWO_32 == K(36) as nat;
    assert IsCubeRoot(0x5766a0abb, 163) && 0x5766a0abb % TWO_32 == K(37) as nat;
    assert IsCubeRoot(0x581c2c92e, 167) && 0x581c2c92e % TWO_32 == K(38) as nat;
    assert IsCubeRoot(0x592722c85, 173) && 0x592722c85 % TWO_32 == K(39) as nat;
  }

  lemma Roots10()
    ensures CubeRootBits(K(40), 179) && CubeRootBits(K(41), 181) && CubeRootBits(K(42), 191) && CubeRootBits(K(43), 193)
  {
    assert IsCubeRoot(0x5a2bfe8a1, 179) && 0x5a2bfe8a1 % TWO_32 == K(40) as nat;
    assert IsCubeRoot(0x5a81a664b, 181) && 0x5a81a664b % TWO_32 == K(41) as nat;
    assert IsCubeRoot(0x5c24b8b70, 191) && 0x5c24b8b70 % TWO_32 == K(42) as nat;
    assert IsCubeRoot(0x5c76c51a3, 193) && 0x5c76c51a3 % TWO_32 == K(43) as nat;
  }

  lemma Roots11()
    ensures CubeRootBits(K(44), 197) && CubeRootBits(K(45), 199) && CubeRootBits(K(46), 211) && CubeRootBits(K(47), 223)
  {
    assert IsCubeRoot(0x5d192e819, 197) && 0x5d192e819 % TWO_32 == K(44) as nat;
    assert IsCubeRoot(0x5d6990624, 199) && 0x5d6990624 % TWO_32 == K(45) as nat;
    assert IsCubeRoot(0x5f40e3585, 211) && 0x5f40e3585 % TWO_32 == K(46) as nat;
    assert IsCubeRoot(0x6106aa070, 223) && 0x6106aa070 % TWO_32 == K(47) as nat;
  }

  lemma Roots12()
    ensures CubeRootBits(K(48), 227) && CubeRootBits(K(49), 229) && CubeRootBits(K(50), 233) && CubeRootBits(K(51), 239)
  {
    assert IsCubeRoot(0x619a4c116, 227) && 0x619a4c116 % TWO_32 == K(48) as nat;
    assert IsCubeRoot(0x61e376c08, 229) && 0x61e376c08 % TWO_32 == K(49) as nat;
    assert IsCubeRoot(0x62748774c, 233) && 0x62748774c % TWO_32 == K(50) as nat;
    assert IsCubeRoot(0x634b0bcb5, 239) && 0x634b0bcb5 % TWO_32 == K(51) as nat;
  }

  lemma Roots13()
    ensures CubeRootBits(K(52), 241) && CubeRootBits(K(53), 251) && CubeRootBits(K(54), 257) && CubeRootBits(K(55), 263)
  {
    assert IsCubeRoot(0x6391c0cb3, 241) && 0x6391c0cb3 % TWO_32 == K(52) as nat;
    assert IsCubeRoot(0x64ed8aa4a, 251) && 0x64ed8aa4a % TWO_32 == K(53) as nat;
    assert IsCubeRoot(0x65b9cca4f, 257) && 0x65b9cca4f % TWO_32 == K(54) as nat;
    assert IsCubeRoot(0x6682e6ff3, 263) && 0x6682e6ff3 % TWO_32 == K(55) as nat;
  }

  lemma Roots14()
    ensures CubeRootBits(K(56), 269) && CubeRootBits(K(57), 271) && CubeRootBits(K(58), 277) && CubeRootBits(K(59), 281)
  {
    assert IsCubeRoot(0x6748f82ee, 269) && 0x6748f82ee % TWO_32 == K(56) as nat;
    assert IsCubeRoot(0x678a5636f, 271) && 0x678a5636f % TWO_32 == K(57) as nat;
    assert IsCubeRoot(0x684c87814, 277) && 0x684c87814 % TWO_32 == K(58) as nat;
    assert IsCubeRoot(0x68cc70208, 281) && 0x68cc70208 % TWO_32 == K(59) as nat;
  }

  lemma Roots15()
    ensures CubeRootBits(K(60), 283) && CubeRootBits(K(61), 293) && CubeRootBits(K(62), 307) && CubeRootBits(K(63), 311)
  {
    assert IsCubeRoot(0x690befffa, 283) && 0x690befffa % TWO_32 == K(60) as nat;
    assert IsCubeRoot(0x6a4506ceb, 293) && 0x6a4506ceb % TWO_32 == K(61) as nat;
    assert IsCubeRoot(0x6bef9a3f7, 307) && 0x6bef9a3f7 % TWO_32 == K(62) as nat;
    assert IsCubeRoot(0x6c67178f2, 311) && 0x6c67178f2 % TWO_32 == K(63) as nat;
  }

  /** Round constant t is that of the t-th prime. */
  lemma RoundConstant(t: nat) returns (p: nat)
    requires t < 64
    ensures NthPrime(p, t) && CubeRootBits(K(t), p)
  {
    hide NthPrime, CubeRootBits, K;
    if t < 8 {
      Primes0();
      Roots0();
      Roots1();
      p := [2, 3, 5, 7, 11, 13, 17, 19][t];
    } else if t < 16 {
      Primes1();
      Roots2();
      Roots3();
      p := [23, 29, 31, 37, 41, 43, 47, 53][t - 8];
    } else if t < 24 {
      Primes2();
      Roots4();
      Roots5();
      p := [59, 61, 67, 71, 73, 79, 83, 89][t - 16];
    } else if t < 32 {
      Primes3();
      Roots6();
      Roots7();
      p := [97, 101, 103, 107, 109, 113, 127, 131][t - 24];
    } else if t < 40 {
      Primes4();
      Roots8();
      Roots9();
      p := [137, 139, 149, 151, 157, 163, 167, 173][t - 32];
    } else if t < 48 {
      Primes5();
      Roots10();
      Roots11();
      p := [179, 181, 191, 193, 197, 199, 211, 223][t - 40];
    } else if t < 56 {
      Primes6();
      Roots12();
      Roots13();
      p := [227, 229, 233, 239, 241, 251, 257, 263][t - 48];
    } else if t < 64 {
      Primes7();
      Roots14();
      Roots15();
      p := [269, 271, 277, 281, 283, 293, 307, 311][t - 56];
    }
  }

  lemma InitialRoots()
    ensures SquareRootBits(InitialHash()[0], 2)
    ensures SquareRootBits(InitialHash()[1], 3)
    ensures SquareRootBits(InitialHash()[2], 5)
    ensures SquareRootBits(InitialHash()[3], 7)
    ensures SquareRootBits(InitialHash()[4], 11)
    ensures SquareRootBits(InitialHash()[5], 13)
    ensures SquareRootBits(InitialHash()[6], 17)
    ensures SquareRootBits(InitialHash()[7], 19)
  {
    assert IsSquareRoot(0x16a09e667, 2) && 0x16a09e667 % TWO_32 == InitialHash()[0] as nat;
    assert IsSquareRoot(0x1bb67ae85, 3) && 0x1bb67ae85 % TWO_32 == InitialHash()[1] as nat;
    assert IsSquareRoot(0x23c6ef372, 5) && 0x23c6ef372 % TWO_32 == InitialHash()[2] as nat;
    assert IsSquareRoot(0x2a54ff53a, 7) && 0x2a54ff53a % TWO_32 == InitialHash()[3] as nat;
    assert IsSquareRoot(0x3510e527f, 11) && 0x3510e527f % TWO_32 == InitialHash()[4] as nat;
    assert IsSquareRoot(0x39b05688c, 13) && 0x39b05688c % TWO_32 == InitialHash()[5] as nat;
    assert IsSquareRoot(0x41f83d9ab, 17) && 0x41f83d9ab % TWO_32 == InitialHash()[6] as nat;
    assert IsSquareRoot(0x45be0cd19, 19) && 0x45be0cd19 % TWO_32 == InitialHash()[7] as nat;
  }

  /** Word t of the initial hash value is that of the t-th prime. */
  lemma InitialWord(t: nat) returns (p: nat)
    requires t < 8
    ensures NthPrime(p, t) && SquareRootBits(InitialHash()[t], p)
  {
    hide NthPrime, SquareRootBits, InitialHash;
    Primes0();
    InitialRoots();
    p := [2, 3, 5, 7, 11, 13, 17, 19][t];
  }
}
