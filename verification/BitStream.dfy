/** The DEFLATE bit packer: bits enter a 32-bit accumulator at its low end and leave it a byte at a time. */
module BitStream {
  import opened Basics

  // ----- The meaning of accumulator and buffer: a sequence of bits, first bit first -----

  /** Bit i of v, counted from the least significant. */
  function Bit(v: nat, i: nat): (b: bool)
  {
    if i == 0 then v % 2 == 1 else Bit(v / 2, i - 1)
  }

  /** The low n bits of v, least significant first. */
  function Bits(v: nat, n: nat): (b: seq<bool>)
    ensures |b| == n
  {
    seq(n, i requires 0 <= i < n => Bit(v, i))
  }

  /** The number whose bits, least significant first, are b. */
  function BitsValue(b: seq<bool>): (v: nat)
  {
    if b == [] then 0 else (if b[0] then 1 else 0) + 2 * BitsValue(b[1..])
  }

  /** The low n bits of v, most significant first: the order in which a Huffman code is packed. */
  function MsbBits(v: nat, n: nat): (b: seq<bool>)
    ensures |b| == n
  {
    seq(n, i requires 0 <= i < n => Bit(v, n - 1 - i))
  }

  /** The number whose bits, most significant first, are b. */
  function MsbValue(b: seq<bool>): (v: nat)
  {
    if b == [] then 0 else 2 * MsbValue(b[..|b| - 1]) + (if b[|b| - 1] then 1 else 0)
  }

  function BitsOfBytes(bs: seq<byte>): (b: seq<bool>)
    ensures |b| == 8 * |bs|
  {
    if bs == [] then [] else Bits(bs[0], 8) + BitsOfBytes(bs[1..])
  }

  function BytesOfBits(b: seq<bool>): (bs: seq<byte>)
    requires |b| % 8 == 0
  {
    if b == [] then [] else
      BitsValueBound(b[..8]);
      [BitsValue(b[..8])] + BytesOfBits(b[8..])
  }

  lemma {:induction false} BitsValueBound(b: seq<bool>)
    ensures BitsValue(b) < Pow2(|b|)
  {
    if b != [] {
      BitsValueBound(b[1..]);
    }
  }

  lemma BitsCons(v: nat, n: nat)
    requires n > 0
    ensures Bits(v, n) == [v % 2 == 1] + Bits(v / 2, n - 1)
  {
  }

  lemma MsbSnoc(v: nat, n: nat)
    requires n > 0
    ensures MsbBits(v, n) == MsbBits(v / 2, n - 1) + [v % 2 == 1]
  {
    forall i | 0 <= i < n
      ensures MsbBits(v, n)[i] == (MsbBits(v / 2, n - 1) + [v % 2 == 1])[i]
    {
      assert i < n - 1 ==> Bit(v, n - 1 - i) == Bit(v / 2, n - 1 - i - 1);
    }
  }

  // ----- Round trips between numbers and bits -----

  lemma {:induction false} BitsRoundTrip(v: nat, n: nat)
    requires v < Pow2(n)
    ensures BitsValue(Bits(v, n)) == v
  {
    if n > 0 {
      BitsCons(v, n);
      BitsRoundTrip(v / 2, n - 1);
      assert Bits(v, n)[1..] == Bits(v / 2, n - 1);
    }
  }

  lemma {:induction false} MsbRoundTrip(v: nat, n: nat)
    requires v < Pow2(n)
    ensures MsbValue(MsbBits(v, n)) == v
  {
    if n > 0 {
      MsbSnoc(v, n);
      MsbRoundTrip(v / 2, n - 1);
      assert MsbBits(v, n)[..n - 1] == MsbBits(v / 2, n - 1);
    }
  }

  lemma {:induction false} BitOfShr(v: nat, k: nat, i: nat)
    ensures Bit(Shr(v, k), i) == Bit(v, k + i)
  {
    if k > 0 {
      BitOfShr(v / 2, k - 1, i);
      assert k + i - 1 == k - 1 + i;
    }
  }

  /** Dropping the last k bits of a most-significant-first string shifts its value right by k. */
  lemma MsbPrefix(v: nat, n: nat, k: nat)
    requires k <= n
    ensures MsbBits(v, n)[..n - k] == MsbBits(Shr(v, k), n - k)
  {
    forall i | 0 <= i < n - k
      ensures MsbBits(v, n)[i] == MsbBits(Shr(v, k), n - k)[i]
    {
      BitOfShr(v, k, n - k - 1 - i);
    }
  }

  lemma {:induction false} BytesRoundTrip(bs: seq<byte>)
    ensures BytesOfBits(BitsOfBytes(bs)) == bs
  {
    if bs != [] {
      var b := BitsOfBytes(bs);
      BitsRoundTrip(bs[0], 8);
      assert b[..8] == Bits(bs[0], 8) && b[8..] == BitsOfBytes(bs[1..]);
      BytesRoundTrip(bs[1..]);
    }
  }

  /** Bits determine the bytes they came from, one byte at a time. */
  lemma HeadByte(bs: seq<byte>, b: byte, rest: seq<bool>)
    requires BitsOfBytes(bs) == Bits(b, 8) + rest
    ensures bs != [] && bs[0] == b && BitsOfBytes(bs[1..]) == rest
  {
    var all := BitsOfBytes(bs);
    assert |all| >= 8;
    assert all[..8] == Bits(b, 8) && all[8..] == rest;
    assert all[..8] == Bits(bs[0], 8) && all[8..] == BitsOfBytes(bs[1..]);
    Pow2Values();
    BitsRoundTrip(b, 8);
    BitsRoundTrip(bs[0], 8);
  }

  // ----- Concatenation -----

  lemma {:induction false} BitsOfBytesConcat(a: seq<byte>, b: seq<byte>)
    ensures BitsOfBytes(a + b) == BitsOfBytes(a) + BitsOfBytes(b)
  {
    if a == [] {
      assert a + b == b;
    } else {
      BitsOfBytesConcat(a[1..], b);
      assert (a + b)[1..] == a[1..] + b;
      Assoc(Bits(a[0], 8), BitsOfBytes(a[1..]), BitsOfBytes(b));
    }
  }

  lemma {:induction false} BitOfSum(lo: nat, k: nat, hi: nat, i: nat)
    requires lo < Pow2(k)
    ensures Bit(lo + Shl(hi, k), i) == if i < k then Bit(lo, i) else Bit(hi, i - k)
  {
    if k > 0 {
      ShlHalf(hi, k);
      if i > 0 {
        BitOfSum(lo / 2, k - 1, hi, i - 1);
      }
    }
  }

  /** Shifting hi above the k bits of lo puts its bits after theirs. */
  lemma BitsConcat(lo: nat, k: nat, hi: nat, n: nat)
    requires lo < Pow2(k)
    ensures Bits(lo + Shl(hi, k), k + n) == Bits(lo, k) + Bits(hi, n)
  {
    forall i | 0 <= i < k + n
      ensures Bits(lo + Shl(hi, k), k + n)[i] == (Bits(lo, k) + Bits(hi, n))[i]
    {
      BitOfSum(lo, k, hi, i);
    }
  }

  // ----- C's bitwise `|` on unsigned values -----

  function Or(a: nat, b: nat): nat
    decreases a + b
  {
    if a == 0 && b == 0 then 0
    else (if a % 2 == 1 || b % 2 == 1 then 1 else 0) + 2 * Or(a / 2, b / 2)
  }

  lemma {:induction false} OrZero(b: nat)
    ensures Or(0, b) == b
  {
    if b > 0 {
      OrZero(b / 2);
    }
  }

  /** Values whose set bits do not meet are added by `|`. */
  lemma {:induction false} OrIsSum(lo: nat, hi: nat, k: nat)
    requires lo < Pow2(k)
    ensures Or(lo, Shl(hi, k)) == lo + Shl(hi, k)
  {
    if k == 0 {
      OrZero(hi);
    } else {
      OrIsSum(lo / 2, hi, k - 1);
      ShlHalf(hi, k);
    }
  }

  // ----- The packer -----

  /** The bits written so far: whole bytes, then what is still in the accumulator. */
  function Written(out: seq<byte>, bitbuf: nat, bitcount: nat): (b: seq<bool>)
  {
    BitsOfBytes(out) + Bits(bitbuf, bitcount)
  }

  /** Between calls fewer than eight bits wait, and no higher bit of the accumulator is set. */
  predicate Settled(bitbuf: nat, bitcount: nat)
  {
    bitcount < 8 && bitbuf < Pow2(bitcount)
  }

  lemma AppendByte(out: seq<byte>, b: byte)
    ensures BitsOfBytes(out + [b]) == BitsOfBytes(out) + Bits(b, 8)
  {
    BitsOfBytesConcat(out, [b]);
    assert BitsOfBytes([b]) == Bits(b, 8) + BitsOfBytes([]);
  }

  lemma SplitByte(v: nat)
    ensures v % 256 < Pow2(8) && v == v % 256 + Shl(Shr(v, 8), 8)
  {
    Pow2Values();
    Shr8(v);
    Shl8(Shr(v, 8));
  }

  /** A byte leaves the accumulator: lo moves to the buffer, hi stays. */
  lemma FlushByte(out: seq<byte>, lo: byte, hi: nat, n: nat)
    ensures Written(out + [lo], hi, n) == Written(out, lo + Shl(hi, 8), 8 + n)
  {
    calc {
      Written(out + [lo], hi, n);
      { AppendByte(out, lo); }
      BitsOfBytes(out) + Bits(lo, 8) + Bits(hi, n);
      { Assoc(BitsOfBytes(out), Bits(lo, 8), Bits(hi, n)); }
      BitsOfBytes(out) + (Bits(lo, 8) + Bits(hi, n));
      { Pow2Values(); BitsConcat(lo, 8, hi, n); }
      Written(out, lo + Shl(hi, 8), 8 + n);
    }
  }

  lemma FlushStep(out: seq<byte>, bitbuf: nat, bitcount: nat)
    requires 8 <= bitcount && bitbuf < Pow2(bitcount)
    ensures Written(out + [bitbuf % 256], Shr(bitbuf, 8), bitcount - 8) == Written(out, bitbuf, bitcount)
    ensures Shr(bitbuf, 8) < Pow2(bitcount - 8)
  {
    ShrBound(bitbuf, bitcount, 8);
    SplitByte(bitbuf);
    FlushByte(out, bitbuf % 256, Shr(bitbuf, 8), bitcount - 8);
  }

  lemma {:induction false} ShrBound(v: nat, n: nat, k: nat)
    requires k <= n && v < Pow2(n)
    ensures Shr(v, k) < Pow2(n - k)
  {
    if k > 0 {
      ShrBound(v / 2, n - 1, k - 1);
    }
  }

  /** Moves whole bytes from the accumulator to the buffer. */
  method Flush(data: seq<byte>, bitbuffer: nat, bitcount: nat) returns (data': seq<byte>, bitbuffer': nat, bitcount': nat)
    requires bitbuffer < Pow2(bitcount)
    ensures Settled(bitbuffer', bitcount')
    ensures Written(data', bitbuffer', bitcount') == Written(data, bitbuffer, bitcount)
  {
    data', bitbuffer', bitcount' := data, bitbuffer, bitcount;
    while bitcount' >= 8
      invariant bitbuffer' < Pow2(bitcount')
      invariant Written(data', bitbuffer', bitcount') == Written(data, bitbuffer, bitcount)
    {
      FlushStep(data', bitbuffer', bitcount');
      data' := data' + [bitbuffer' % 256];
      bitbuffer' := Shr(bitbuffer', 8);
      bitcount' := bitcount' - 8;
    }
  }

  /** `bitbuf | code << bitcount` on a 32-bit accumulator. */
  function ShiftIn(bitbuf: nat, bitcount: nat, code: nat): nat {
    Or(bitbuf, Shl(code, bitcount)) % TWO_32
  }

  /** Nothing is lost at the top of the accumulator: the operands do not meet and the result is narrower than 32 bits. */
  lemma ShiftInIsSum(bitbuf: nat, bitcount: nat, code: nat, codebits: nat)
    requires Settled(bitbuf, bitcount)
    requires code < Pow2(codebits) && codebits <= 24
    ensures ShiftIn(bitbuf, bitcount, code) == bitbuf + Shl(code, bitcount) < Pow2(bitcount + codebits)
  {
    OrIsSum(bitbuf, code, bitcount);
    ShlBound(bitbuf, bitcount, code, codebits);
    assert Pow2(bitcount + codebits) <= TWO_32 by {
      Pow2Monotone(bitcount + codebits, 32);
      Pow2Values();
    }
  }

  /** Appends the low `codebits` bits of `code`, least significant first. */
  method Add(out: seq<byte>, bitbuf: nat, bitcount: nat, code: nat, codebits: nat)
    returns (out': seq<byte>, bitbuf': nat, bitcount': nat)
    requires Settled(bitbuf, bitcount)
    requires code < Pow2(codebits) && codebits <= 24
    ensures Settled(bitbuf', bitcount')
    ensures Written(out', bitbuf', bitcount') == Written(out, bitbuf, bitcount) + Bits(code, codebits)
  {
    ShiftInIsSum(bitbuf, bitcount, code, codebits);
    BitsConcat(bitbuf, bitcount, code, codebits);
    Assoc(BitsOfBytes(out), Bits(bitbuf, bitcount), Bits(code, codebits));
    out', bitbuf', bitcount' := Flush(out, ShiftIn(bitbuf, bitcount, code), bitcount + codebits);
  }

  /** Reverses the low `codebits` bits of a code. */
  method BitRev(code: nat, codebits: nat) returns (res: nat)
    ensures Bits(res, codebits) == MsbBits(code, codebits)
    ensures res < Pow2(codebits)
  {
    var c: nat, left: nat := code, codebits;
    res := 0;
    while left > 0
      invariant left <= codebits
      invariant res < Pow2(codebits - left)
      invariant MsbBits(c, left) + Bits(res, codebits - left) == MsbBits(code, codebits)
    {
      left := left - 1;
      ghost var before := res;
      MsbSnoc(c, left + 1);
      res := 2 * res + c % 2;
      BitsCons(res, codebits - left);
      Assoc(MsbBits(c / 2, left), [c % 2 == 1], Bits(before, codebits - left - 1));
      c := c / 2;
    }
  }
}
