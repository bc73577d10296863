/** The compressor's side of a fixed-Huffman block: literals, matches, the code tables and the bits they become. */
module Tokens {
  import opened Basics
  import opened BitStream
  import opened Inflate

  const LENGTHC: seq<nat> := [3, 4, 5, 6, 7, 8, 9, 10, 11, 13, 15, 17, 19, 23, 27,
                              31, 35, 43, 51, 59, 67, 83, 99, 115, 131, 163, 195, 227, 258, 259]
  const LENGTHEB: seq<nat> := [0, 0, 0, 0, 0, 0, 0, 0, 1, 1, 1, 1, 2, 2, 2, 2, 3, 3, 3, 3, 4, 4, 4, 4, 5, 5, 5, 5, 0]
  const DISTC: seq<nat> := [1, 2, 3, 4, 5, 7, 9, 13, 17, 25, 33, 49, 65, 97, 129, 193,
                            257, 385, 513, 769, 1025, 1537, 2049, 3073, 4097, 6145, 8193, 12289, 16385, 24577, 32768]
  const DISTEB: seq<nat> := [0, 0, 0, 0, 1, 1, 2, 2, 3, 3, 4, 4, 5, 5, 6, 6, 7, 7, 8, 8, 9, 9, 10, 10, 11, 11, 12, 12, 13, 13]

  // ----- The tables against those of RFC 1951 -----

  lemma SmallPowers()
    ensures Pow2(0) == 1 && Pow2(1) == 2 && Pow2(2) == 4 && Pow2(3) == 8 && Pow2(4) == 16 && Pow2(5) == 32
    ensures Pow2(6) == 64 && Pow2(7) == 128 && Pow2(8) == 256 && Pow2(9) == 512 && Pow2(10) == 1024
    ensures Pow2(11) == 2048 && Pow2(12) == 4096 && Pow2(13) == 8192
  {
    assert Pow2(3) == 8;
    assert Pow2(6) == 64;
    assert Pow2(9) == 512;
    assert Pow2(12) == 4096;
  }

  /** Row j is the standard's; it ends where row j + 1 starts, and its extra bits can express everything in between. */
  lemma LengthFits(j: nat)
    requires j <= 28
    ensures LENGTHC[j] == LENGTH_BASE[j] && LENGTHEB[j] == LENGTH_EXTRA[j] <= 5
    ensures LENGTHC[j + 1] <= LENGTHC[j] + Pow2(LENGTHEB[j])
  {
    SmallPowers();
  }

  lemma DistanceFits(k: nat)
    requires k <= 29
    ensures DISTC[k] == DISTANCE_BASE[k] && DISTEB[k] == DISTANCE_EXTRA[k] <= 13
    ensures DISTC[k + 1] <= DISTC[k] + Pow2(DISTEB[k])
  {
    SmallPowers();
  }

  // ----- Bit strings that decode to something whatever follows them -----

  ghost predicate IsSymbol(b: seq<bool>, s: nat) {
    forall rest: seq<bool> :: DecodeSymbol(b + rest) == Some(Symbol(s, |b|))
  }

  ghost predicate IsLength(b: seq<bool>, j: nat, length: nat)
    requires j <= 28
  {
    forall rest: seq<bool> :: DecodeLength(b + rest, j) == Some(Field(length, |b|))
  }

  ghost predicate IsDistance(b: seq<bool>, distance: nat) {
    forall rest: seq<bool> :: DecodeDistance(b + rest) == Some(Field(distance, |b|))
  }

  ghost predicate IsItem(b: seq<bool>, item: Item) {
    forall rest: seq<bool> :: DecodeItem(b + rest) == Some(Decoded(item, |b|))
  }

  // ----- Huffman codes -----

  /** The fixed code of symbol n and its length in bits. */
  function Code(n: nat): (r: (nat, nat))
    requires n < 288
  {
    if n <= 143 then (0x30 + n, 8)
    else if n <= 255 then (0x190 + n - 144, 9)
    else if n <= 279 then (n - 256, 7)
    else (0xC0 + n - 280, 8)
  }

  function CodeBits(n: nat): (b: seq<bool>)
    requires n < 288
  {
    MsbBits(Code(n).0, Code(n).1)
  }

  lemma CodeFits(n: nat)
    requires n < 288
    ensures Code(n).0 < Pow2(Code(n).1) && 7 <= Code(n).1 <= 9
  {
    SmallPowers();
  }

  /** The first m bits of a code followed by anything are the code shifted right by the rest of its length. */
  lemma CodePrefix(code: nat, length: nat, m: nat, rest: seq<bool>)
    requires m <= length && code < Pow2(length)
    ensures MsbValue((MsbBits(code, length) + rest)[..m]) == Shr(code, length - m)
  {
    assert (MsbBits(code, length) + rest)[..m] == MsbBits(code, length)[..length - (length - m)];
    MsbPrefix(code, length, length - m);
    ShrBound(code, length, length - m);
    MsbRoundTrip(Shr(code, length - m), m);
  }

  /** A code read after seven, eight and nine of its bits. */
  lemma CodePrefixes(code: nat, length: nat, rest: seq<bool>)
    requires 7 <= length <= 9 && code < Pow2(length)
    ensures var bits := MsbBits(code, length) + rest;
            MsbValue(bits[..7]) == (if length == 7 then code else if length == 8 then code / 2 else code / 4)
            && (length >= 8 ==> MsbValue(bits[..8]) == (if length == 8 then code else code / 2))
            && (length == 9 ==> MsbValue(bits[..9]) == code)
  {
    assert Shr(code, 0) == code && Shr(code, 1) == code / 2 && Shr(code, 2) == code / 4 by { Shr2(code); }
    CodePrefix(code, length, 7, rest);
    if length >= 8 {
      CodePrefix(code, length, 8, rest);
    }
    if length == 9 {
      CodePrefix(code, length, 9, rest);
    }
  }

  /** No code is a prefix of another: the decoder reads back the symbol and stops where it ends. */
  lemma CodeDecodes(n: nat)
    requires n < 288
    ensures IsSymbol(CodeBits(n), n)
  {
    forall rest: seq<bool>
      ensures DecodeSymbol(CodeBits(n) + rest) == Some(Symbol(n, Code(n).1))
    {
      CodeFits(n);
      CodePrefixes(Code(n).0, Code(n).1, rest);
    }
  }

  // ----- Lengths and distances -----

  /** Extra bits are read back, and so is how many there were. */
  lemma ExtraDecodes(x: nat, base: nat, extra: nat, skipped: nat, rest: seq<bool>)
    requires x < Pow2(extra)
    ensures DecodeExtra(Bits(x, extra) + rest, base, extra, skipped) == Some(Field(base + x, skipped + extra))
  {
    BitsRoundTrip(x, extra);
    assert (Bits(x, extra) + rest)[..extra] == Bits(x, extra);
  }

  lemma LengthDecodes(j: nat, x: nat)
    requires j <= 28 && x < Pow2(LENGTH_EXTRA[j])
    ensures IsLength(Bits(x, LENGTH_EXTRA[j]), j, LENGTH_BASE[j] + x)
  {
    forall rest: seq<bool>
      ensures DecodeLength(Bits(x, LENGTH_EXTRA[j]) + rest, j) == Some(Field(LENGTH_BASE[j] + x, LENGTH_EXTRA[j]))
    {
      ExtraDecodes(x, LENGTH_BASE[j], LENGTH_EXTRA[j], 0, rest);
    }
  }

  lemma DistanceCode(k: nat, extra: seq<bool>, rest: seq<bool>)
    requires k <= 29
    ensures (MsbBits(k, 5) + extra + rest)[5..] == extra + rest
    ensures MsbValue((MsbBits(k, 5) + extra + rest)[..5]) == k
  {
    SmallPowers();
    MsbRoundTrip(k, 5);
    assert (MsbBits(k, 5) + extra + rest)[..5] == MsbBits(k, 5);
  }

  lemma DistanceDecodes(k: nat, x: nat, base: nat, n: nat)
    requires k <= 29 && base == DISTANCE_BASE[k] && n == DISTANCE_EXTRA[k] && x < Pow2(n)
    ensures IsDistance(MsbBits(k, 5) + Bits(x, n), base + x)
  {
    forall rest: seq<bool>
      ensures DecodeDistance(MsbBits(k, 5) + Bits(x, n) + rest) == Some(Field(base + x, 5 + n))
    {
      ExtraDecodes(x, base, n, 5, rest);
      DistanceCode(k, Bits(x, n), rest);
    }
  }

  /** A length code, its extra bits and a distance make a pair: the decoder takes them apart where they were joined. */
  lemma PairDecodes(head: seq<bool>, l: seq<bool>, d: seq<bool>, j: nat, length: nat, distance: nat)
    requires j <= 28 && IsSymbol(head, 257 + j) && IsLength(l, j, length) && IsDistance(d, distance)
    ensures IsItem(head + (l + d), Back(length, distance))
  {
    hide DecodeSymbol, DecodeLength, DecodeDistance;
    forall rest: seq<bool>
      ensures DecodeItem(head + (l + d) + rest) == Some(Decoded(Back(length, distance), |head + (l + d)|))
    {
      Regroup(head, l, d, rest);
      TakeDrop(head, l + (d + rest));
      TakeDrop(l, d + rest);
    }
  }

  lemma LiteralDecodes(b: byte)
    ensures IsItem(CodeBits(b), Byte(b))
  {
    CodeDecodes(b);
  }

  lemma EndDecodes()
    ensures IsItem(CodeBits(256), EndOfBlock)
  {
    CodeDecodes(256);
  }

  // ----- Sequences of tokens: literals and matches with the bits that code them -----

  datatype Token = Token(bits: seq<bool>, item: Item)

  /** What a token adds to the text before it. */
  ghost predicate Applies(t: Token, text: seq<byte>) {
    IsItem(t.bits, t.item) && !t.item.EndOfBlock? && (t.item.Back? ==> 0 < t.item.distance <= |text|)
  }

  ghost function Apply(t: Token, text: seq<byte>): (r: seq<byte>)
    requires Applies(t, text)
  {
    match t.item
    case Byte(b) => text + [b]
    case Back(length, distance) => Copy(text, distance, length)
  }

  ghost predicate AllApply(ts: seq<Token>, text: seq<byte>)
  {
    ts == [] || (Applies(ts[0], text) && AllApply(ts[1..], Apply(ts[0], text)))
  }

  ghost function ApplyAll(ts: seq<Token>, text: seq<byte>): (r: seq<byte>)
    requires AllApply(ts, text)
  {
    if ts == [] then text else ApplyAll(ts[1..], Apply(ts[0], text))
  }

  function TokensBits(ts: seq<Token>): (b: seq<bool>)
  {
    if ts == [] then [] else ts[0].bits + TokensBits(ts[1..])
  }

  lemma {:induction false} Extend(ts: seq<Token>, text: seq<byte>, t: Token)
    requires AllApply(ts, text) && Applies(t, ApplyAll(ts, text))
    ensures AllApply(ts + [t], text)
    ensures ApplyAll(ts + [t], text) == Apply(t, ApplyAll(ts, text))
  {
    if ts == [] {
      assert ts + [t] == [t];
    } else {
      Extend(ts[1..], Apply(ts[0], text), t);
      assert (ts + [t])[1..] == ts[1..] + [t];
    }
  }

  lemma {:induction false} TokensBitsAppend(ts: seq<Token>, t: Token)
    ensures TokensBits(ts + [t]) == TokensBits(ts) + t.bits
  {
    if ts == [] {
      assert ts + [t] == [t];
      assert TokensBits([t]) == t.bits + TokensBits([]);
    } else {
      TokensBitsAppend(ts[1..], t);
      assert (ts + [t])[1..] == ts[1..] + [t];
      Assoc(ts[0].bits, TokensBits(ts[1..]), t.bits);
    }
  }

  /** Decoding the bits of a token applies it to the text so far and goes on after them. */
  lemma DecodeToken(t: Token, rest: seq<bool>, text: seq<byte>)
    requires Applies(t, text)
    ensures InflateFixed(t.bits + rest, text) == InflateFixed(rest, Apply(t, text))
  {
    assert DecodeItem(t.bits + rest) == Some(Decoded(t.item, |t.bits|));
    TakeDrop(t.bits, rest);
  }

  /** A block of tokens and an end-of-block symbol decodes to what the tokens spell, and nothing behind it is read. */
  lemma {:induction false} DecodeBlock(ts: seq<Token>, end: seq<bool>, rest: seq<bool>, text: seq<byte>)
    requires AllApply(ts, text) && IsItem(end, EndOfBlock)
    ensures InflateFixed(TokensBits(ts) + end + rest, text) == Some(Inflated(rest, ApplyAll(ts, text)))
  {
    Assoc(TokensBits(ts), end, rest);
    if ts == [] {
      assert TokensBits(ts) + (end + rest) == end + rest;
      assert DecodeItem(end + rest) == Some(Decoded(EndOfBlock, |end|));
      TakeDrop(end, rest);
    } else {
      Assoc(ts[0].bits, TokensBits(ts[1..]), end + rest);
      Assoc(TokensBits(ts[1..]), end, rest);
      DecodeToken(ts[0], TokensBits(ts[1..]) + (end + rest), text);
      DecodeBlock(ts[1..], end, rest, Apply(ts[0], text));
    }
  }
}
