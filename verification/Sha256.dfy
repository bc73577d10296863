/** The incremental SHA-256 hasher: a residue buffer, a length counter of four digits, and the chaining value. */
module Sha256 {
  import opened Basics
  import opened BitStream
  import opened Sha256Spec

  // ----- Rotations by shifts -----

  function Rotr(x: bv32, n: bv32): bv32
    requires 0 < n < 32
  {
    (x >> n) | (x << (32 - n))
  }

  function BSig0(x: bv32): bv32 { Xor3(Rotr(x, 2), Rotr(x, 13), Rotr(x, 22)) }

  function BSig1(x: bv32): bv32 { Xor3(Rotr(x, 6), Rotr(x, 11), Rotr(x, 25)) }

  function SSig0(x: bv32): bv32 { Xor3(Rotr(x, 7), Rotr(x, 18), x >> 3) }

  function SSig1(x: bv32): bv32 { Xor3(Rotr(x, 17), Rotr(x, 19), x >> 10) }

  lemma BSig0IsBigSigma0(x: bv32)
    ensures BSig0(x) == BigSigma0(x)
  {
    hide Xor3;
    assert Rotr(x, 2) == x.RotateRight(2);
    assert Rotr(x, 13) == x.RotateRight(13);
    assert Rotr(x, 22) == x.RotateRight(22);
  }

  lemma BSig1IsBigSigma1(x: bv32)
    ensures BSig1(x) == BigSigma1(x)
  {
    hide Xor3;
    assert Rotr(x, 6) == x.RotateRight(6);
    assert Rotr(x, 11) == x.RotateRight(11);
    assert Rotr(x, 25) == x.RotateRight(25);
  }

  lemma SSig0IsSmallSigma0(x: bv32)
    ensures SSig0(x) == SmallSigma0(x)
  {
    hide Xor3;
    assert Rotr(x, 7) == x.RotateRight(7);
    assert Rotr(x, 18) == x.RotateRight(18);
  }

  lemma SSig1IsSmallSigma1(x: bv32)
    ensures SSig1(x) == SmallSigma1(x)
  {
    hide Xor3;
    assert Rotr(x, 17) == x.RotateRight(17);
    assert Rotr(x, 19) == x.RotateRight(19);
  }

  // ----- One block -----

  lemma FirstWords(block: seq<bv8>, i: nat)
    requires |block| == 64 && i < 16
    ensures W(block, i) == Word(block[i * 4], block[i * 4 + 1], block[i * 4 + 2], block[i * 4 + 3])
  {
    hide Word;
  }

  lemma LaterWords(block: seq<bv8>, i: nat)
    requires |block| == 64 && 16 <= i < 64
    ensures W(block, i) == Plus(Plus(Plus(SSig1(W(block, i - 2)), W(block, i - 7)), SSig0(W(block, i - 15))), W(block, i - 16))
  {
    hide Word, SSig0, SSig1, SmallSigma0, SmallSigma1, Plus;
    SSig0IsSmallSigma0(W(block, i - 15));
    SSig1IsSmallSigma1(W(block, i - 2));
  }

  /** The message schedule, filled in front to back. */
  method Schedule(block: seq<bv8>) returns (w: array<bv32>)
    requires |block| == 64
    ensures fresh(w) && w.Length == 64 && forall j | 0 <= j < 64 :: w[j] == W(block, j)
  {
    hide W, Word, SSig0, SSig1, Plus;
    w := new bv32[64](_ => 0);
    for i := 0 to 16
      invariant forall j | 0 <= j < i :: w[j] == W(block, j)
    {
      FirstWords(block, i);
      w[i] := Word(block[i * 4], block[i * 4 + 1], block[i * 4 + 2], block[i * 4 + 3]);
    }
    for i := 16 to 64
      invariant forall j | 0 <= j < i :: w[j] == W(block, j)
    {
      LaterWords(block, i);
      w[i] := Plus(Plus(Plus(SSig1(w[i - 2]), w[i - 7]), SSig0(w[i - 15])), w[i - 16]);
    }
  }

  /** The 64 rounds on eight variables. */
  method RunRounds(start: seq<bv32>, block: seq<bv8>) returns (v: Vars)
    requires |start| == 8 && |block| == 64
    ensures v == Rounds(start, block, 64)
  {
    hide BSig0, BSig1, BigSigma0, BigSigma1, Ch, Maj, Plus, K, W, Word;
    var w := Schedule(block);
    var a, b, c, d := start[0], start[1], start[2], start[3];
    var e, f, g, h := start[4], start[5], start[6], start[7];
    for i := 0 to 64
      invariant Vars(a, b, c, d, e, f, g, h) == Rounds(start, block, i)
      invariant forall j | 0 <= j < 64 :: w[j] == W(block, j)
    {
      BSig0IsBigSigma0(a);
      BSig1IsBigSigma1(e);
      var temp1 := Plus(Plus(Plus(Plus(h, BSig1(e)), Ch(e, f, g)), K(i)), w[i]);
      var temp2 := Plus(BSig0(a), Maj(a, b, c));
      h := g;
      g := f;
      f := e;
      e := Plus(d, temp1);
      d := c;
      c := b;
      b := a;
      a := Plus(temp1, temp2);
    }
    v := Vars(a, b, c, d, e, f, g, h);
  }

  lemma PlusCommutes(x: bv32, y: bv32)
    ensures Plus(x, y) == Plus(y, x)
  {
  }

  /** The variables after the rounds are added to the chaining value in place. */
  method HashBlock(h: array<bv32>, block: seq<bv8>)
    requires h.Length == 8 && |block| == 64
    modifies h
    ensures h[..] == Compress(old(h[..]), block)
  {
    hide Rounds, Plus, Compress;
    ghost var before := h[..];
    var v := RunRounds(h[..], block);
    h[0], h[1], h[2], h[3] := Plus(h[0], v.a), Plus(h[1], v.b), Plus(h[2], v.c), Plus(h[3], v.d);
    h[4], h[5], h[6], h[7] := Plus(h[4], v.e), Plus(h[5], v.f), Plus(h[6], v.g), Plus(h[7], v.h);
    AddedUp(before, block, v, h[..]);
  }

  lemma AddedUp(h: seq<bv32>, block: seq<bv8>, v: Vars, after: seq<bv32>)
    requires |h| == |after| == 8 && |block| == 64 && v == Rounds(h, block, 64)
    requires after[0] == Plus(h[0], v.a) && after[1] == Plus(h[1], v.b) && after[2] == Plus(h[2], v.c) && after[3] == Plus(h[3], v.d)
    requires after[4] == Plus(h[4], v.e) && after[5] == Plus(h[5], v.f) && after[6] == Plus(h[6], v.g) && after[7] == Plus(h[7], v.h)
    ensures after == Compress(h, block)
  {
    hide Rounds, Plus;
    PlusCommutes(h[0], v.a);
    PlusCommutes(h[1], v.b);
    PlusCommutes(h[2], v.c);
    PlusCommutes(h[3], v.d);
    PlusCommutes(h[4], v.e);
    PlusCommutes(h[5], v.f);
    PlusCommutes(h[6], v.g);
    PlusCommutes(h[7], v.h);
  }

  // ----- The length counter: four digits to base 65536, lowest first, taken modulo 2^64 -----

  /** v times 65536^i. */
  function Scale(v: nat, i: nat): (r: nat)
    requires i <= 4
  {
    if i == 0 then v else if i == 1 then 0x1_0000 * v else if i == 2 then 0x1_0000_0000 * v
    else if i == 3 then 0x1_0000_0000_0000 * v else TWO_64 * v
  }

  function Total(d: seq<nat>): (t: nat)
    requires |d| == 4
  {
    Scale(d[0], 0) + Scale(d[1], 1) + Scale(d[2], 2) + Scale(d[3], 3)
  }

  predicate Digits(d: seq<nat>) {
    |d| == 4 && d[0] < 65536 && d[1] < 65536 && d[2] < 65536 && d[3] < 65536
  }

  lemma TotalBound(d: seq<nat>)
    requires Digits(d)
    ensures Total(d) < TWO_64
  {
  }

  /** The carry of one digit moves up to the next. */
  lemma CarryUp(v: nat, i: nat)
    requires i < 4
    ensures Scale(v, i) == Scale(v % 65536, i) + Scale(v / 65536, i + 1)
  {
  }

  lemma ScaleSum(a: nat, b: nat, i: nat)
    requires i <= 4
    ensures Scale(a + b, i) == Scale(a, i) + Scale(b, i)
  {
  }

  /** Changing one digit changes the total by what it is worth. */
  lemma TotalUpdate(d: seq<nat>, i: nat, v: nat)
    requires |d| == 4 && i < 4
    ensures Total(d[i := v]) + Scale(d[i], i) == Total(d) + Scale(v, i)
  {
  }

  lemma CarryStep(d: seq<nat>, carry: nat, i: nat)
    requires |d| == 4 && i < 4
    ensures var v := d[i] + carry;
      Total(d[i := v % 65536]) + Scale(v / 65536, i + 1) == Total(d) + Scale(carry, i)
  {
    hide Total, Scale;
    CarryUp(d[i] + carry, i);
    ScaleSum(d[i], carry, i);
    TotalUpdate(d, i, (d[i] + carry) % 65536);
  }

  lemma ScaleZero(i: nat)
    requires i <= 4
    ensures Scale(0, i) == 0
  {
  }

  lemma ModOfTotal(t: nat, over: nat, sum: nat)
    requires t < TWO_64 && sum == t + Scale(over, 4)
    ensures t == sum % TWO_64
  {
  }

  /** The digits in front of position i have settled, and those behind it have not been touched. */
  predicate Settling(d: seq<nat>, i: nat) {
    |d| == 4 && forall j | 0 <= j < 4 && (j != 0 || i > 0) :: d[j] < 65536
  }

  /** Adds n to the counter: the carry runs up until a digit does not overflow. A 32-bit word holds every sum. */
  method AddToDataLength(digits: array<nat>, n: nat)
    requires Digits(digits[..]) && n + 65535 < TWO_32
    modifies digits
    ensures Digits(digits[..]) && Total(digits[..]) == (old(Total(digits[..])) + n) % TWO_64
  {
    hide Total, Scale;
    var carry: nat := 0;
    ghost var sum := Total(digits[..]) + n;
    TotalUpdate(digits[..], 0, digits[0] + n);
    ScaleSum(digits[0], n, 0);
    ScaleZero(0);
    ScaleZeroth(n);
    digits[0] := digits[0] + n;
    var i := 0;
    while i < 4
      invariant 0 <= i <= 4 && carry < 65536 && Settling(digits[..], i)
      invariant i == 0 ==> carry == 0 && digits[0] < TWO_32
      invariant Total(digits[..]) + Scale(carry, i) == sum
    {
      ghost var before := digits[..];
      CarryStep(before, carry, i);
      digits[i] := digits[i] + carry;
      if digits[i] >= 65536 {
        carry := digits[i] / 65536;
        digits[i] := digits[i] % 65536;
        assert digits[..] == before[i := digits[i]];
      } else {
        assert digits[..] == before[i := digits[i]];
        ScaleZero(i + 1);
        ScaleZero(4);
        break;
      }
      i := i + 1;
    }
    TotalBound(digits[..]);
    ModOfTotal(Total(digits[..]), if i == 4 then carry else 0, sum);
  }

  lemma ScaleZeroth(n: nat)
    ensures Scale(n, 0) == n
  {
  }

  // ----- The length in bits -----

  /** What the first i digits are worth. */
  function PartTotal(d: seq<nat>, i: nat): nat
    requires |d| == 4 && i <= 4
  {
    if i == 0 then 0 else PartTotal(d, i - 1) + Scale(d[i - 1], i - 1)
  }

  lemma WholeTotal(d: seq<nat>)
    requires |d| == 4
    ensures PartTotal(d, 4) == Total(d)
  {
    assert PartTotal(d, 1) == Scale(d[0], 0);
    assert PartTotal(d, 2) == Scale(d[0], 0) + Scale(d[1], 1);
  }

  lemma {:induction false} SameStart(d: seq<nat>, e: seq<nat>, i: nat)
    requires |d| == |e| == 4 && i <= 4 && d[..i] == e[..i]
    ensures PartTotal(d, i) == PartTotal(e, i)
  {
    if i > 0 {
      assert d[..i][..i - 1] == d[..i - 1] && e[..i][..i - 1] == e[..i - 1];
      assert d[..i][i - 1] == e[..i][i - 1];
      SameStart(d, e, i - 1);
    }
  }

  lemma ScaleByEight(v: nat, i: nat)
    requires i <= 4
    ensures Scale(8 * v, i) == 8 * Scale(v, i)
  {
  }

  lemma Shr13(v: nat)
    ensures 8192 * Shr(v, 13) <= v < 8192 * Shr(v, 13) + 8192
  {
    hide Shr;
    ShrAdd(v, 8, 5);
    Shr8(v);
    ShrAdd(v / 256, 2, 3);
    Shr2(v / 256);
    ShrAdd(v / 256 / 4, 2, 1);
    Shr2(v / 256 / 4);
    Shr1(v / 256 / 4 / 4);
  }

  lemma Shr1(v: nat)
    ensures Shr(v, 1) == v / 2
  {
  }

  lemma Shl3(v: nat)
    ensures Shl(v, 3) == 8 * v
  {
    assert Shl(v, 1) == 2 * v;
    assert Shl(v, 2) == 4 * v;
  }

  /** Shifting a digit left by three and merging the carry below it. */
  lemma ShiftDigit(v: nat, carry: nat)
    requires v < 65536 && carry < 8
    ensures Or(carry, Shl(v, 3)) == 8 * v + carry
    ensures Shr(v, 13) % 65536 == (8 * v + carry) / 65536 < 8
  {
    hide Shr, Shl, Or;
    Shl3(v);
    EightIsPower();
    OrIsSum(carry, v, 3);
    Shr13(v);
    DivUnique(8 * v + carry, 65536, Shr(v, 13), 8 * v + carry - 65536 * Shr(v, 13));
  }

  lemma EightIsPower()
    ensures Pow2(3) == 8
  {
  }

  lemma ShiftStep(d: seq<nat>, e: seq<nat>, carry: nat, i: nat)
    requires |d| == |e| == 4 && i < 4
    requires PartTotal(e, i) + Scale(carry, i) == 8 * PartTotal(d, i)
    ensures var v := 8 * d[i] + carry;
      PartTotal(e[i := v % 65536], i + 1) + Scale(v / 65536, i + 1) == 8 * PartTotal(d, i + 1)
  {
    hide Scale;
    var v := 8 * d[i] + carry;
    CarryUp(v, i);
    ScaleSum(8 * d[i], carry, i);
    ScaleByEight(d[i], i);
    SameStart(e, e[i := v % 65536], i);
  }

  /** The four digits of the length in bits, which is the length in bytes shifted left by three. */
  method BitLengthDigits(d: seq<nat>) returns (e: seq<nat>)
    requires Digits(d)
    ensures Digits(e) && Total(e) == 8 * Total(d) % TWO_64
  {
    hide Total, Scale, PartTotal, Or, Shl, Shr;
    e := d;
    var carry: nat := 0;
    NoTotal(d);
    for i := 0 to 4
      invariant Digits(e) && carry < 8 && e[i..] == d[i..]
      invariant PartTotal(e, i) + Scale(carry, i) == 8 * PartTotal(d, i)
    {
      assert e[i..][0] == d[i..][0];
      ShiftDigit(e[i], carry);
      ShiftStep(d, e, carry, i);
      var before := e[i];
      e := e[i := Or(carry, Shl(e[i], 3)) % 65536];
      carry := Shr(before, 13) % 65536;
      assert e[i + 1..] == d[i..][1..];
    }
    WholeTotal(d);
    WholeTotal(e);
    TotalBound(e);
    ModOfTotal(Total(e), carry, 8 * Total(d));
  }

  lemma NoTotal(d: seq<nat>)
    requires |d| == 4
    ensures PartTotal(d, 0) == 0 && Scale(0, 0) == 0
  {
  }

  /** The number that the digits from position i up make. */
  function Top(e: seq<nat>, i: nat): (t: nat)
    requires |e| == 4 && i <= 4
    decreases 4 - i
  {
    if i == 4 then 0 else 65536 * Top(e, i + 1) + e[i]
  }

  lemma TopIsTotal(e: seq<nat>)
    requires |e| == 4
    ensures Top(e, 0) == Total(e)
  {
    assert Top(e, 3) == e[3];
    assert Top(e, 2) == 65536 * e[3] + e[2];
  }

  function High(d: nat): bv8
    requires d < 65536
  {
    (d / 256) as bv8
  }

  function Low(d: nat): bv8 { (d % 256) as bv8 }

  /** A digit contributes two bytes. */
  lemma BigEndianDigit(v: nat, d: nat, n: nat)
    requires d < 65536
    ensures BigEndian(65536 * v + d, n + 2) == BigEndian(v, n) + [High(d), Low(d)]
  {
    var x, hi, lo := 65536 * v + d, d / 256, d % 256;
    DivUnique(x, 256, 256 * v + hi, lo);
    DivUnique(256 * v + hi, 256, v, hi);
    assert BigEndian(x / 256, n + 1) == BigEndian(v, n) + [High(d)];
  }

  /** Writes the length in bits to the end of the block, highest digit first. */
  method WriteDataBitLength(digits: seq<nat>, temp: array<bv8>)
    requires Digits(digits) && temp.Length == 64
    modifies temp
    ensures temp[..56] == old(temp[..56]) && temp[56..] == BigEndian(8 * Total(digits) % TWO_64, 8)
  {
    hide Total, BigEndian, High, Low;
    var e := BitLengthDigits(digits);
    NoBytes();
    for i := 4 downto 0
      invariant temp[..56] == old(temp[..56])
      invariant temp[56..64 - 2 * i] == BigEndian(Top(e, i), 8 - 2 * i)
    {
      BigEndianDigit(Top(e, i + 1), e[i], 6 - 2 * i);
      ghost var done := temp[56..62 - 2 * i];
      temp[62 - 2 * i] := High(e[i]);
      temp[63 - 2 * i] := Low(e[i]);
      assert temp[56..64 - 2 * i] == done + [High(e[i]), Low(e[i])];
    }
    TopIsTotal(e);
  }

  lemma NoBytes()
    ensures BigEndian(0, 0) == []
  {
  }

  // ----- Blocks of the message -----

  lemma NextBlock(done: seq<bv8>, block: seq<bv8>)
    requires |done| % 64 == 0 && |block| == 64
    ensures |done + block| % 64 == 0 && HashBlocks(done + block) == Compress(HashBlocks(done), block)
  {
    hide Compress;
    TakeDrop(done, block);
  }

  lemma PadOne(d: nat, b: nat)
    requires d % 64 == 0 && b < 56
    ensures PadZeros(d + b) == 55 - b
  {
  }

  lemma PadTwo(d: nat, b: nat)
    requires d % 64 == 0 && 56 <= b < 64
    ensures PadZeros(d + b) == 63 - b + 56
  {
  }

  /** The last block when message end, padding and length fit into one. */
  lemma OneBlock(done: seq<bv8>, buffer: seq<bv8>, last: seq<bv8>)
    requires |done| % 64 == 0 && |buffer| < 56 && |last| == 64
    requires last == buffer + [0x80] + Zeros(55 - |buffer|) + BigEndian(8 * |done + buffer| % TWO_64, 8)
    ensures Sha256(done + buffer) == Compress(HashBlocks(done), last)
  {
    hide Compress, HashBlocks, BigEndian, Zeros, PadZeros;
    var m := done + buffer;
    PadOne(|done|, |buffer|);
    var length := BigEndian(8 * |m| % TWO_64, 8);
    Join(done, buffer, [0x80], Zeros(55 - |buffer|), length);
    NextBlock(done, last);
  }

  lemma Join(done: seq<bv8>, buffer: seq<bv8>, a: seq<bv8>, b: seq<bv8>, c: seq<bv8>)
    ensures done + buffer + (a + b + c) == done + (buffer + a + b + c)
  {
  }

  lemma JoinTwo(done: seq<bv8>, buffer: seq<bv8>, a: seq<bv8>, x: seq<bv8>, y: seq<bv8>, c: seq<bv8>)
    ensures done + buffer + (a + (x + y) + c) == done + (buffer + a + x) + (y + c)
  {
  }

  lemma ZerosSum(a: nat, b: nat)
    ensures Zeros(a + b) == Zeros(a) + Zeros(b)
  {
  }

  /** Both blocks when they do not. */
  lemma TwoBlocks(done: seq<bv8>, buffer: seq<bv8>, first: seq<bv8>, last: seq<bv8>)
    requires |done| % 64 == 0 && 56 <= |buffer| < 64 && |first| == |last| == 64
    requires first == buffer + [0x80] + Zeros(63 - |buffer|)
    requires last == Zeros(56) + BigEndian(8 * |done + buffer| % TWO_64, 8)
    ensures Sha256(done + buffer) == Compress(Compress(HashBlocks(done), first), last)
  {
    hide Compress, HashBlocks, BigEndian, Zeros, PadZeros;
    var m := done + buffer;
    PadTwo(|done|, |buffer|);
    ZerosSum(63 - |buffer|, 56);
    JoinTwo(done, buffer, [0x80], Zeros(63 - |buffer|), Zeros(56), BigEndian(8 * |m| % TWO_64, 8));
    NextBlock(done, first);
    NextBlock(done + first, last);
  }

  lemma LengthGrows(n: nat, k: nat)
    ensures (n % TWO_64 + k) % TWO_64 == (n + k) % TWO_64
  {
  }

  lemma LengthInBits(n: nat)
    ensures 8 * (n % TWO_64) % TWO_64 == 8 * n % TWO_64
  {
    var q := n / TWO_64;
    DivUnique(8 * n, TWO_64, 8 * q + 8 * (n % TWO_64) / TWO_64, 8 * (n % TWO_64) % TWO_64);
  }

  /** The bytes of the words, each word highest byte first. */
  function WordBytes(h: seq<bv32>): (b: seq<bv8>)
    ensures |b| == 4 * |h|
  {
    if h == [] then [] else
      var x := h[|h| - 1];
      WordBytes(h[..|h| - 1]) + [ByteOf(x, 0), ByteOf(x, 1), ByteOf(x, 2), ByteOf(x, 3)]
  }

  function FourBytes(x: bv32): (b: seq<bv8>)
    ensures |b| == 4 && forall i | 0 <= i < 4 :: b[i] == ByteOf(x, i)
  {
    [ByteOf(x, 0), ByteOf(x, 1), ByteOf(x, 2), ByteOf(x, 3)]
  }

  /** At most n bytes of the words. */
  function FirstBytes(h: seq<bv32>, n: nat): (b: seq<bv8>)
    ensures |b| == if n < 4 * |h| then n else 4 * |h|
  {
    if n < 4 * |h| then WordBytes(h)[..n] else WordBytes(h)
  }

  lemma NoWords(h: seq<bv32>, n: nat)
    requires h == []
    ensures FirstBytes(h, n) == []
  {
  }

  lemma Everything(h: seq<bv32>, n: nat)
    requires |h| == 8
    ensures FirstBytes(h, n) == if n < 32 then WordBytes(h)[..n] else WordBytes(h)
  {
    hide WordBytes;
  }

  /** The bytes of a word, highest first, while there is room. */
  method AppendWord(bytes: seq<bv8>, x: bv32, n: nat) returns (more: seq<bv8>)
    requires |bytes| <= n
    ensures more == bytes + FourBytes(x)[..if n - |bytes| < 4 then n - |bytes| else 4]
  {
    hide ByteOf;
    more := bytes;
    var i := 0;
    while i < 4 && |more| < n
      invariant i <= 4 && |bytes| + i <= n && more == bytes + FourBytes(x)[..i]
    {
      assert FourBytes(x)[..i + 1] == FourBytes(x)[..i] + [FourBytes(x)[i]];
      more := more + [ByteOf(x, i)];
      i := i + 1;
    }
  }

  lemma OneMoreWord(h: seq<bv32>, x: bv32, n: nat)
    ensures var room := n - |FirstBytes(h, n)|;
      FirstBytes(h + [x], n) == FirstBytes(h, n) + FourBytes(x)[..if room < 4 then room else 4]
  {
    hide FourBytes;
    WordsSnoc(h, x);
  }

  lemma WordsSnoc(h: seq<bv32>, x: bv32)
    ensures WordBytes(h + [x]) == WordBytes(h) + FourBytes(x)
  {
    assert (h + [x])[..|h|] == h;
  }

  /** The words can be read back from the bytes. */
  lemma {:induction false} WordBytesAt(h: seq<bv32>, i: nat)
    requires i < |h|
    ensures var b := WordBytes(h); Word(b[4 * i], b[4 * i + 1], b[4 * i + 2], b[4 * i + 3]) == h[i]
  {
    hide Word, ByteOf;
    if i < |h| - 1 {
      WordBytesAt(h[..|h| - 1], i);
    } else {
      WordOfBytes(h[i]);
    }
  }

  /** All of the message but the buffer at its end is hashed. */
  ghost predicate Hashed(message: seq<bv8>, buffer: seq<bv8>, h: seq<bv32>) {
    && |buffer| < 64 && |buffer| <= |message| && (|message| - |buffer|) % 64 == 0
    && message == message[..|message| - |buffer|] + buffer
    && h == HashBlocks(message[..|message| - |buffer|])
  }

  /** The hashed part. */
  ghost function Front(message: seq<bv8>, buffer: seq<bv8>, h: seq<bv32>): (done: seq<bv8>)
    requires Hashed(message, buffer, h)
    ensures |done| % 64 == 0 && message == done + buffer && h == HashBlocks(done) && |buffer| < 64
  {
    message[..|message| - |buffer|]
  }

  lemma HashedSplit(done: seq<bv8>, buffer: seq<bv8>, i: nat, h: seq<bv32>)
    requires |done| % 64 == 0 && i % 64 == 0 && i <= |buffer| < i + 64
    requires h == HashBlocks(done + buffer[..i])
    ensures Hashed(done + buffer, buffer[i..], h)
  {
    hide HashBlocks;
    assert buffer == buffer[..i] + buffer[i..];
    Assoc(done, buffer[..i], buffer[i..]);
    TakeDrop(done + buffer[..i], buffer[i..]);
  }

  lemma NothingHashed()
    ensures Hashed([], [], InitialHash())
  {
  }

  /** The digits are the length n modulo 2^64. */
  ghost predicate Counted(d: seq<nat>, n: nat) {
    Digits(d) && Total(d) == n % TWO_64
  }

  lemma CountedBits(d: seq<nat>, n: nat)
    requires Counted(d, n)
    ensures Digits(d) && 8 * Total(d) % TWO_64 == 8 * n % TWO_64
  {
    LengthInBits(n);
  }

  method Clear(digits: array<nat>)
    requires digits.Length == 4
    modifies digits
    ensures Counted(digits[..], 0)
  {
    forall i | 0 <= i < 4 {
      digits[i] := 0;
    }
  }

  method Count(digits: array<nat>, ghost n: nat, k: nat)
    requires Counted(digits[..], n) && k + 65535 < TWO_32
    modifies digits
    ensures Counted(digits[..], n + k)
  {
    hide Total, Digits;
    AddToDataLength(digits, k);
    LengthGrows(n, k);
  }

  /** Hashes the whole blocks at the front of the buffer, and says how many bytes they are. */
  method HashWhole(h: array<bv32>, buffer: seq<bv8>, ghost done: seq<bv8>) returns (i: nat)
    requires h.Length == 8 && |done| % 64 == 0 && h[..] == HashBlocks(done)
    modifies h
    ensures i <= |buffer| < i + 64 && i % 64 == 0 && h[..] == HashBlocks(done + buffer[..i])
  {
    hide HashBlocks, Compress;
    i := 0;
    assert done + buffer[..0] == done;
    while i + 64 <= |buffer|
      invariant i <= |buffer| && i % 64 == 0
      invariant h[..] == HashBlocks(done + buffer[..i])
    {
      NextBlock(done + buffer[..i], buffer[i..i + 64]);
      assert buffer[..i + 64] == buffer[..i] + buffer[i..i + 64];
      Assoc(done, buffer[..i], buffer[i..i + 64]);
      HashBlock(h, buffer[i..i + 64]);
      i := i + 64;
    }
  }

  /** A block that begins with what is left in the buffer and the first padding byte. */
  method StartPadding(buffer: seq<bv8>) returns (temp: array<bv8>)
    requires |buffer| < 64
    ensures fresh(temp) && temp.Length == 64 && temp[..|buffer| + 1] == buffer + [0x80]
  {
    temp := new bv8[64](_ => 0);
    forall j | 0 <= j < |buffer| {
      temp[j] := buffer[j];
    }
    temp[|buffer|] := 0x80;
  }

  /** Zero bytes from lo up to hi. */
  method Fill(temp: array<bv8>, lo: nat, hi: nat)
    requires lo <= hi <= temp.Length
    modifies temp
    ensures temp[..hi] == old(temp[..lo]) + Zeros(hi - lo)
  {
    forall j | lo <= j < hi {
      temp[j] := 0;
    }
  }

  lemma ZerosUpTo(temp: seq<bv8>, start: seq<bv8>, hi: nat, k: nat)
    requires |start| <= k <= hi <= |temp| && temp[..hi] == start + Zeros(hi - |start|)
    ensures temp[..k] == start + Zeros(k - |start|)
  {
    assert temp[..k] == temp[..hi][..k];
  }

  class Hash256 {
    var buffer: seq<bv8>
    const digits: array<nat>
    const h: array<bv32>

    /** Everything processed since the last Init. */
    ghost var message: seq<bv8>

    ghost predicate Valid()
      reads this, digits, h
    {
      && digits.Length == 4 && h.Length == 8
      && Hashed(message, buffer, h[..])
      && Counted(digits[..], |message|)
    }

    constructor ()
      ensures Valid() && message == [] && fresh(digits) && fresh(h)
    {
      digits := new nat[4];
      h := new bv32[8];
      new;
      Init();
    }

    method Init()
      requires digits.Length == 4 && h.Length == 8
      modifies this, digits, h
      ensures Valid() && message == []
    {
      hide Hashed, Counted, InitialHash;
      buffer := [];
      var start := InitialHash();
      forall i | 0 <= i < 8 {
        h[i] := start[i];
      }
      assert h[..] == InitialHash();
      Clear(digits);
      message := [];
      NothingHashed();
    }

    /** Takes in a chunk: whole blocks are hashed, the rest stays in the buffer. */
    method Process(chunk: seq<bv8>)
      requires Valid() && |chunk| + 65535 < TWO_32
      modifies this, digits, h
      ensures Valid() && message == old(message) + chunk
    {
      hide Hashed, Counted, HashBlocks;
      ghost var done := Front(message, buffer, h[..]);
      Count(digits, |message|, |chunk|);
      Assoc(done, buffer, chunk);
      message := message + chunk;
      buffer := buffer + chunk;
      var i := HashWhole(h, buffer, done);
      HashedSplit(done, buffer, i, h[..]);
      buffer := buffer[i..];
    }

    /** Pads the message and hashes its last one or two blocks. */
    method Finish()
      requires Valid()
      modifies h
      ensures h[..] == Sha256(message)
    {
      hide Hashed, Counted, HashBlocks, Compress, Total, BigEndian, Sha256, Zeros;
      ghost var done := Front(message, buffer, h[..]);
      CountedBits(digits[..], |message|);
      var temp := StartPadding(buffer);
      var remains := |buffer|;
      if remains > 55 {
        Fill(temp, remains + 1, 64);
        ghost var first := temp[..];
        HashBlock(h, temp[..]);
        Fill(temp, 0, 60);
        ZerosUpTo(temp[..], [], 60, 56);
        WriteDataBitLength(digits[..], temp);
        assert temp[..] == temp[..56] + temp[56..];
        TwoBlocks(done, buffer, first, temp[..]);
      } else {
        Fill(temp, remains + 1, 60);
        ZerosUpTo(temp[..], buffer + [0x80], 60, 56);
        WriteDataBitLength(digits[..], temp);
        assert temp[..] == temp[..56] + temp[56..];
        OneBlock(done, buffer, temp[..]);
      }
      HashBlock(h, temp[..]);
    }

    /** The first n bytes of the hash value, at most all 32. */
    method GetHashBytes(n: nat) returns (bytes: seq<bv8>)
      requires h.Length == 8
      ensures bytes == if n < 32 then WordBytes(h[..])[..n] else WordBytes(h[..])
    {
      hide WordBytes, FourBytes, FirstBytes;
      bytes := [];
      NoWords(h[..0], n);
      for k := 0 to 8
        invariant bytes == FirstBytes(h[..k], n)
      {
        assert h[..k + 1] == h[..k] + [h[k]];
        OneMoreWord(h[..k], h[k], n);
        bytes := AppendWord(bytes, h[k], n);
      }
      Everything(h[..8], n);
      assert h[..8] == h[..];
    }
  }

  function Concat(chunks: seq<seq<bv8>>): (m: seq<bv8>)
  {
    if chunks == [] then [] else Concat(chunks[..|chunks| - 1]) + chunks[|chunks| - 1]
  }

  /** The digest depends on the concatenation of the chunks alone: it is that of the standard, however they are cut. */
  method HashChunks(chunks: seq<seq<bv8>>) returns (digest: seq<bv8>)
    requires forall i | 0 <= i < |chunks| :: |chunks[i]| + 65535 < TWO_32
    ensures digest == WordBytes(Sha256(Concat(chunks)))
  {
    hide Sha256, WordBytes;
    var hasher := new Hash256();
    for i := 0 to |chunks|
      invariant hasher.Valid() && hasher.message == Concat(chunks[..i]) && fresh(hasher.digits) && fresh(hasher.h)
    {
      assert chunks[..i + 1][..i] == chunks[..i];
      hasher.Process(chunks[i]);
    }
    assert chunks[..|chunks|] == chunks;
    hasher.Finish();
    digest := hasher.GetHashBytes(32);
  }

  /** Up to bufferSize bytes from `first` on, and where they end. */
  method FillBuffer(data: seq<bv8>, first: nat, bufferSize: nat) returns (buffer: seq<bv8>, last: nat)
    requires first <= |data|
    ensures last == if first + bufferSize < |data| then first + bufferSize else |data|
    ensures buffer == data[first..last]
  {
    var size, i := bufferSize, 0;
    buffer, last := [], first;
    while i != bufferSize
      invariant i <= bufferSize && size == bufferSize && last == first + i <= |data| && buffer == data[first..last]
      decreases bufferSize - i
    {
      if last == |data| {
        size := i;
        break;
      }
      buffer := buffer + [data[last]];
      i := i + 1;
      last := last + 1;
    }
    buffer := buffer[..size];
  }

  /** Hashing what an input iterator delivers, a buffer at a time. */
  method HashStream(data: seq<bv8>, bufferSize: nat) returns (digest: seq<bv8>)
    requires 0 < bufferSize && bufferSize + 65535 < TWO_32
    ensures digest == WordBytes(Sha256(data))
  {
    hide Sha256, WordBytes;
    var hasher := new Hash256();
    var first := 0;
    while first < |data|
      invariant first <= |data| && hasher.Valid() && hasher.message == data[..first]
      invariant fresh(hasher.digits) && fresh(hasher.h)
    {
      ghost var start := first;
      var buffer;
      buffer, first := FillBuffer(data, first, bufferSize);
      hasher.Process(buffer);
      assert data[..start] + data[start..first] == data[..first];
    }
    assert data[..first] == data;
    hasher.Finish();
    digest := hasher.GetHashBytes(32);
  }
}
