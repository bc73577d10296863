/**
 A reference decoder, written from RFC 1951 (stored and fixed-Huffman blocks, sections 3.2.3 to 3.2.6) and
 RFC 1950 (section 2.2). It works on sequences of bits, first bit first, and shares no table with the compressor.
 */
module Inflate {
  import opened Basics
  import opened BitStream

  datatype Symbol = Symbol(value: nat, length: nat)

  /** Section 3.2.6: the literal/length code, told apart by the first seven, eight or nine bits. */
  function DecodeSymbol(bits: seq<bool>): (r: Option<Symbol>)
    ensures r.Some? ==> 0 < r.value.length <= |bits|
  {
    if |bits| < 7 then None
    else if MsbValue(bits[..7]) <= 0x17 then Some(Symbol(256 + MsbValue(bits[..7]), 7))
    else if |bits| < 8 then None
    else if 0x30 <= MsbValue(bits[..8]) <= 0xBF then Some(Symbol(MsbValue(bits[..8]) - 0x30, 8))
    else if 0xC0 <= MsbValue(bits[..8]) <= 0xC7 then Some(Symbol(280 + MsbValue(bits[..8]) - 0xC0, 8))
    else if |bits| < 9 then None
    else if 0x190 <= MsbValue(bits[..9]) <= 0x1FF then Some(Symbol(144 + MsbValue(bits[..9]) - 0x190, 9))
    else None
  }

  // Section 3.2.5: smallest length and extra bits of length codes 257 to 285, smallest distance and extra bits of
  // distance codes 0 to 29.

  const LENGTH_BASE: seq<nat> := [3, 4, 5, 6, 7, 8, 9, 10, 11, 13, 15, 17, 19, 23, 27, 31,
                                  35, 43, 51, 59, 67, 83, 99, 115, 131, 163, 195, 227, 258]
  const LENGTH_EXTRA: seq<nat> := [0, 0, 0, 0, 0, 0, 0, 0, 1, 1, 1, 1, 2, 2, 2, 2, 3, 3, 3, 3, 4, 4, 4, 4, 5, 5, 5, 5, 0]
  const DISTANCE_BASE: seq<nat> := [1, 2, 3, 4, 5, 7, 9, 13, 17, 25, 33, 49, 65, 97, 129, 193, 257, 385, 513, 769,
                                    1025, 1537, 2049, 3073, 4097, 6145, 8193, 12289, 16385, 24577]
  const DISTANCE_EXTRA: seq<nat> := [0, 0, 0, 0, 1, 1, 2, 2, 3, 3, 4, 4, 5, 5, 6, 6, 7, 7, 8, 8,
                                     9, 9, 10, 10, 11, 11, 12, 12, 13, 13]

  /** Copies `length` bytes from `distance` back, one at a time, so that a copy may read its own output. */
  function Copy(out: seq<byte>, distance: nat, length: nat): (r: seq<byte>)
    requires 0 < distance <= |out|
    ensures |r| == |out| + length
    decreases length
  {
    if length == 0 then out else Copy(out + [out[|out| - distance]], distance, length - 1)
  }

  datatype Field = Field(value: nat, used: nat)

  /** Extra bits, least significant first, added to the smallest value of their code. */
  function DecodeExtra(bits: seq<bool>, base: nat, extra: nat, skipped: nat): (r: Option<Field>)
    ensures r.Some? ==> r.value.used == skipped + extra <= skipped + |bits|
  {
    if |bits| < extra then None else Some(Field(base + BitsValue(bits[..extra]), skipped + extra))
  }

  /** A distance: a five-bit code, most significant bit first, and its extra bits. */
  function DecodeDistance(bits: seq<bool>): (r: Option<Field>)
    ensures r.Some? ==> r.value.used <= |bits|
  {
    if |bits| < 5 || MsbValue(bits[..5]) > 29 then None
    else DecodeExtra(bits[5..], DISTANCE_BASE[MsbValue(bits[..5])], DISTANCE_EXTRA[MsbValue(bits[..5])], 5)
  }

  /** A length: the extra bits of length code 257 + j. */
  function DecodeLength(bits: seq<bool>, j: nat): (r: Option<Field>)
    requires j <= 28
    ensures r.Some? ==> r.value.used <= |bits|
  {
    DecodeExtra(bits, LENGTH_BASE[j], LENGTH_EXTRA[j], 0)
  }

  datatype Item = Byte(b: byte) | Back(length: nat, distance: nat) | EndOfBlock
  datatype Decoded = Decoded(item: Item, used: nat)

  /** A literal, an end of block, or a length/distance pair. Length codes above 285 do not occur. */
  function DecodeItem(bits: seq<bool>): (r: Option<Decoded>)
    ensures r.Some? ==> 0 < r.value.used <= |bits|
  {
    var symbol := DecodeSymbol(bits);
    if symbol.None? || symbol.value.value > 285 then None
    else
      var Symbol(s, n) := symbol.value;
      if s < 256 then Some(Decoded(Byte(s), n))
      else if s == 256 then Some(Decoded(EndOfBlock, n))
      else
        var length := DecodeLength(bits[n..], s - 257);
        if length.None? then None
        else
          var distance := DecodeDistance(bits[n..][length.value.used..]);
          if distance.None? then None
          else Some(Decoded(Back(length.value.value, distance.value.value), n + length.value.used + distance.value.used))
  }

  datatype Inflated = Inflated(rest: seq<bool>, out: seq<byte>)

  /** The body of a fixed-Huffman block up to and with its end-of-block symbol. */
  function InflateFixed(bits: seq<bool>, out: seq<byte>): (r: Option<Inflated>)
    ensures r.Some? ==> |r.value.rest| < |bits|
    decreases |bits|
  {
    var decoded := DecodeItem(bits);
    if decoded.None? then None
    else
      var rest := bits[decoded.value.used..];
      match decoded.value.item
      case EndOfBlock => Some(Inflated(rest, out))
      case Byte(b) => InflateFixed(rest, out + [b])
      case Back(length, distance) =>
        if 0 < distance <= |out| then InflateFixed(rest, Copy(out, distance, length)) else None
  }

  /** Section 3.2.4: length, its complement, and that many bytes. */
  function InflateLengthPrefixed(bits: seq<bool>, out: seq<byte>): (r: Option<Inflated>)
    ensures r.Some? ==> |r.value.rest| <= |bits|
  {
    if |bits| < 32 then None
    else
      var len, nlen, body := BitsValue(bits[..16]), BitsValue(bits[16..][..16]), bits[32..];
      if nlen != 0xFFFF - len || |body| < 8 * len then None
      else Some(Inflated(body[8 * len..], out + BytesOfBits(body[..8 * len])))
  }

  /** A stored block starts at the next byte boundary; the whole stream ends at one. */
  function InflateStored(bits: seq<bool>, out: seq<byte>): (r: Option<Inflated>)
    ensures r.Some? ==> |r.value.rest| <= |bits|
  {
    InflateLengthPrefixed(bits[|bits| % 8..], out)
  }

  /** Section 3.2.3: blocks up to and with the one marked final. Dynamic Huffman blocks are refused. */
  function InflateBlocks(bits: seq<bool>, out: seq<byte>): (r: Option<Inflated>)
    decreases |bits|
  {
    if |bits| < 3 then None
    else
      var final, kind := bits[0], BitsValue(bits[1..][..2]);
      var block :=
        if kind == 0 then InflateStored(bits[3..], out)
        else if kind == 1 then InflateFixed(bits[3..], out)
        else None;
      if block.None? || final then block
      else InflateBlocks(block.value.rest, block.value.out)
  }

  /** RFC 1950, section 2.2: the two sums, each byte reduced modulo 65521. */
  function AdlerSums(data: seq<byte>): (s: (nat, nat))
    ensures s.0 < 65521 && s.1 < 65521
  {
    if data == [] then (1, 0)
    else
      var (s1, s2) := AdlerSums(data[..|data| - 1]);
      var s1' := (s1 + data[|data| - 1]) % 65521;
      (s1', (s2 + s1') % 65521)
  }

  /** The checksum s2 * 65536 + s1, most significant byte first. */
  function AdlerBytes(data: seq<byte>): (b: seq<byte>)
    ensures |b| == 4
  {
    var (s1, s2) := AdlerSums(data);
    [s2 / 256, s2 % 256, s1 / 256, s1 % 256]
  }

  /** RFC 1950: deflate with a window of at most 32768 bytes, a correct check value, and no preset dictionary. */
  predicate ZlibHeader(cmf: byte, flg: byte) {
    cmf % 16 == 8 && cmf / 16 <= 7 && (cmf as int * 256 + flg as int) % 31 == 0 && flg / 32 % 2 == 0
  }

  /** Aligned to a byte boundary, the rest of the stream is the checksum of the output and nothing more. */
  predicate TrailerMatches(r: Inflated) {
    r.rest[|r.rest| % 8..] == BitsOfBytes(AdlerBytes(r.out))
  }

  /** RFC 1950: header, blocks, padding to a byte boundary, checksum. */
  function Unzlib(z: seq<byte>): (data: Option<seq<byte>>)
  {
    if |z| < 2 || !ZlibHeader(z[0], z[1]) then None
    else
      var r := InflateBlocks(BitsOfBytes(z[2..]), []);
      if r.Some? && TrailerMatches(r.value) then Some(r.value.out) else None
  }
}
