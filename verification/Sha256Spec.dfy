/** SHA-256 as FIPS 180-4 defines it: functions and constants of section 4, padding of section 5, computation of section 6.2. */
module Sha256Spec {

  // ----- Section 4.1.2: functions on words -----

  function Ch(x: bv32, y: bv32, z: bv32): bv32 { (x & y) ^ (!x & z) }

  function Maj(x: bv32, y: bv32, z: bv32): bv32 { (x & y) ^ (x & z) ^ (y & z) }

  function Xor3(x: bv32, y: bv32, z: bv32): bv32 { x ^ y ^ z }

  /** Where the bits of x are set, the bits are those of y; where they are not, those of z. */
  lemma ChChooses(x: bv32, y: bv32, z: bv32, bits: bv32)
    ensures x & bits == bits ==> Ch(x, y, z) & bits == y & bits
    ensures x & bits == 0 ==> Ch(x, y, z) & bits == z & bits
  {
  }

  /** Where x and y differ, the bits are those of z, else theirs: each bit is set if it is in two of the words at least. */
  lemma MajDecides(x: bv32, y: bv32, z: bv32)
    ensures Maj(x, y, z) == Ch(x ^ y, z, x) && Maj(x, y, z) == (x & y) | (x & z) | (y & z)
  {
  }

  /** Where x and y agree, the bits are those of z; where they differ, those are turned. */
  lemma Xor3Counts(x: bv32, y: bv32, z: bv32, bits: bv32)
    ensures x & bits == y & bits ==> Xor3(x, y, z) & bits == z & bits
    ensures x & bits == !y & bits ==> Xor3(x, y, z) & bits == !z & bits
  {
  }

  function BigSigma0(x: bv32): bv32 { Xor3(x.RotateRight(2), x.RotateRight(13), x.RotateRight(22)) }

  function BigSigma1(x: bv32): bv32 { Xor3(x.RotateRight(6), x.RotateRight(11), x.RotateRight(25)) }

  function SmallSigma0(x: bv32): bv32 { Xor3(x.RotateRight(7), x.RotateRight(18), x >> 3) }

  function SmallSigma1(x: bv32): bv32 { Xor3(x.RotateRight(17), x.RotateRight(19), x >> 10) }

  // ----- Section 4.2.2: constants -----

  /** Eight to a line. */
  const ROUND_CONSTANTS: seq<seq<bv32>> := [
    [0x428a2f98, 0x71374491, 0xb5c0fbcf, 0xe9b5dba5, 0x3956c25b, 0x59f111f1, 0x923f82a4, 0xab1c5ed5],
    [0xd807aa98, 0x12835b01, 0x243185be, 0x550c7dc3, 0x72be5d74, 0x80deb1fe, 0x9bdc06a7, 0xc19bf174],
    [0xe49b69c1, 0xefbe4786, 0x0fc19dc6, 0x240ca1cc, 0x2de92c6f, 0x4a7484aa, 0x5cb0a9dc, 0x76f988da],
    [0x983e5152, 0xa831c66d, 0xb00327c8, 0xbf597fc7, 0xc6e00bf3, 0xd5a79147, 0x06ca6351, 0x14292967],
    [0x27b70a85, 0x2e1b2138, 0x4d2c6dfc, 0x53380d13, 0x650a7354, 0x766a0abb, 0x81c2c92e, 0x92722c85],
    [0xa2bfe8a1, 0xa81a664b, 0xc24b8b70, 0xc76c51a3, 0xd192e819, 0xd6990624, 0xf40e3585, 0x106aa070],
    [0x19a4c116, 0x1e376c08, 0x2748774c, 0x34b0bcb5, 0x391c0cb3, 0x4ed8aa4a, 0x5b9cca4f, 0x682e6ff3],
    [0x748f82ee, 0x78a5636f, 0x84c87814, 0x8cc70208, 0x90befffa, 0xa4506ceb, 0xbef9a3f7, 0xc67178f2]]

  function K(t: nat): bv32
    requires t < 64
  {
    ROUND_CONSTANTS[t / 8][t % 8]
  }

  // ----- Section 5.3.3: initial hash value -----

  function InitialHash(): (h: seq<bv32>)
    ensures |h| == 8
  {
    [0x6a09e667, 0xbb67ae85, 0x3c6ef372, 0xa54ff53a, 0x510e527f, 0x9b05688c, 0x1f83d9ab, 0x5be0cd19]
  }

  // ----- Words and bytes -----

  /** Four bytes as a word, first byte highest. */
  function Word(b0: bv8, b1: bv8, b2: bv8, b3: bv8): bv32 {
    ((b0 as bv32) << 24) | ((b1 as bv32) << 16) | ((b2 as bv32) << 8) | (b3 as bv32)
  }

  lemma WordIsSum(b0: bv8, b1: bv8, b2: bv8, b3: bv8)
    ensures Word(b0, b1, b2, b3) == 0x100_0000 * (b0 as bv32) + 0x1_0000 * (b1 as bv32) + 0x100 * (b2 as bv32) + b3 as bv32
  {
  }

  /** Byte i of a word, counted from the highest. */
  function ByteOf(x: bv32, i: nat): bv8
    requires i < 4
  {
    if i == 0 then (x >> 24) as bv8
    else if i == 1 then ((x >> 16) & 0xff) as bv8
    else if i == 2 then ((x >> 8) & 0xff) as bv8
    else (x & 0xff) as bv8
  }

  lemma WordOfBytes(x: bv32)
    ensures Word(ByteOf(x, 0), ByteOf(x, 1), ByteOf(x, 2), ByteOf(x, 3)) == x
  {
  }

  /** The low n bytes of v, highest first. */
  function BigEndian(v: nat, n: nat): (b: seq<bv8>)
    ensures |b| == n
  {
    if n == 0 then [] else BigEndian(v / 256, n - 1) + [(v % 256) as bv8]
  }

  // ----- Section 6.2.2: one block -----

  datatype Vars = Vars(a: bv32, b: bv32, c: bv32, d: bv32, e: bv32, f: bv32, g: bv32, h: bv32)

  function Plus(x: bv32, y: bv32): bv32 { x + y }

  lemma PlusWraps(x: bv32, y: bv32)
    ensures Plus(x, y) as bv64 == (x as bv64 + y as bv64) % 0x1_0000_0000
  {
  }

  /** Step 1: word t of the message schedule. */
  function W(block: seq<bv8>, t: nat): bv32
    requires |block| == 64 && t < 64
  {
    if t < 16 then Word(block[4 * t], block[4 * t + 1], block[4 * t + 2], block[4 * t + 3])
    else
      Plus(Plus(Plus(SmallSigma1(W(block, t - 2)), W(block, t - 7)), SmallSigma0(W(block, t - 15))), W(block, t - 16))
  }

  /** Step 3: one round. */
  function Round(v: Vars, k: bv32, w: bv32): Vars {
    var t1 := Plus(Plus(Plus(Plus(v.h, BigSigma1(v.e)), Ch(v.e, v.f, v.g)), k), w);
    var t2 := Plus(BigSigma0(v.a), Maj(v.a, v.b, v.c));
    Vars(Plus(t1, t2), v.a, v.b, v.c, Plus(v.d, t1), v.e, v.f, v.g)
  }

  /** The working variables after t rounds, from hash value h. */
  function Rounds(h: seq<bv32>, block: seq<bv8>, t: nat): Vars
    requires |h| == 8 && |block| == 64 && t <= 64
  {
    if t == 0 then Vars(h[0], h[1], h[2], h[3], h[4], h[5], h[6], h[7])
    else Round(Rounds(h, block, t - 1), K(t - 1), W(block, t - 1))
  }

  /** Step 4: the next hash value. */
  function Compress(h: seq<bv32>, block: seq<bv8>): (r: seq<bv32>)
    requires |h| == 8 && |block| == 64
    ensures |r| == 8
  {
    var v := Rounds(h, block, 64);
    [Plus(v.a, h[0]), Plus(v.b, h[1]), Plus(v.c, h[2]), Plus(v.d, h[3]),
     Plus(v.e, h[4]), Plus(v.f, h[5]), Plus(v.g, h[6]), Plus(v.h, h[7])]
  }

  /** The hash value after all blocks of m, in order. */
  function HashBlocks(m: seq<bv8>): (h: seq<bv32>)
    requires |m| % 64 == 0
    ensures |h| == 8
  {
    if m == [] then InitialHash() else Compress(HashBlocks(m[..|m| - 64]), m[|m| - 64..])
  }

  // ----- Section 5.1.1: padding -----

  function Zeros(n: nat): (z: seq<bv8>)
    ensures |z| == n
  {
    seq(n, _ => 0)
  }

  /** The number of zero bytes behind the first padding byte of an n-byte message. */
  function PadZeros(n: nat): nat { (55 - n) % 64 }

  /** It is the least number that leaves room for just the length at the end of a block. */
  lemma PadZerosLeast(n: nat, k: nat)
    requires (n + 1 + k + 8) % 64 == 0
    ensures (n + 1 + PadZeros(n) + 8) % 64 == 0 && PadZeros(n) <= k
  {
  }

  const TWO_64: int := 0x1_0000_0000_0000_0000

  /** The length in bits is a 64-bit number; longer messages are outside the standard, and taken modulo 2^64. */
  function Padding(n: nat): (p: seq<bv8>)
    ensures (n + |p|) % 64 == 0
  {
    [0x80] + Zeros(PadZeros(n)) + BigEndian(8 * n % TWO_64, 8)
  }

  /** The hash value of a message. */
  function Sha256(m: seq<bv8>): (h: seq<bv32>)
    ensures |h| == 8
  {
    HashBlocks(m + Padding(|m|))
  }
}
