/** Run-length packets of TGA image data, type 9 to 11 images of the TGA 2.0 format. */
module TgaRle {
  import opened Basics
  import opened WriteBuffer

  type Pixel = seq<byte>

  // ----- Pixels in the file: blue, green, red, then alpha -----

  /** The bytes of a pixel with 1 to 4 channels. */
  function PixelBytes(p: Pixel): (b: seq<byte>)
    requires 1 <= |p| <= 4
    ensures |b| == |p|
  {
    if |p| <= 2 then p else [p[2], p[1], p[0]] + p[3..]
  }

  /** The pixel that these bytes of a TGA 2.0 file stand for: luminance, or red behind green behind blue; then alpha. */
  function ReadPixel(b: seq<byte>): (p: Pixel)
    requires 1 <= |b| <= 4
    ensures |p| == |b|
  {
    if |b| == 1 then [b[0]]
    else if |b| == 2 then [b[0], b[1]]
    else if |b| == 3 then [b[2], b[1], b[0]]
    else [b[2], b[1], b[0], b[3]]
  }

  /** The bytes of a pixel are read as that pixel. */
  lemma PixelRoundTrip(p: Pixel)
    requires 1 <= |p| <= 4
    ensures ReadPixel(PixelBytes(p)) == p
  {
  }

  // ----- Packets -----

  datatype Packet =
    | Raw(pixels: seq<Pixel>)
    | Run(count: nat, pixel: Pixel)

  function Repeat(n: nat, p: Pixel): (s: seq<Pixel>)
    ensures |s| == n
  {
    seq(n, _ => p)
  }

  function Expand(p: Packet): seq<Pixel> {
    match p
    case Raw(pixels) => pixels
    case Run(count, pixel) => Repeat(count, pixel)
  }

  /** Between 1 and 128 pixels of the same number of channels. */
  predicate PacketOk(p: Packet, comp: nat) {
    1 <= |Expand(p)| <= 128 && forall q <- Expand(p) :: |q| == comp
  }

  function ExpandAll(ps: seq<Packet>): seq<Pixel> {
    if ps == [] then [] else Expand(ps[0]) + ExpandAll(ps[1..])
  }

  function PixelsBytes(s: seq<Pixel>): (b: seq<byte>)
    requires forall q <- s :: 1 <= |q| <= 4
  {
    if s == [] then [] else PixelBytes(s[0]) + PixelsBytes(s[1..])
  }

  /** The header counts pixels less one, with the high bit set for a run. */
  function PacketBytes(p: Packet, comp: nat): seq<byte>
    requires PacketOk(p, comp) && 1 <= comp <= 4
  {
    match p
    case Raw(pixels) => [|pixels| - 1] + PixelsBytes(pixels)
    case Run(count, pixel) =>
      assert Repeat(count, pixel)[0] == pixel;
      [128 + (count - 1)] + PixelBytes(pixel)
  }

  function AllBytes(ps: seq<Packet>, comp: nat): seq<byte>
    requires 1 <= comp <= 4 && forall p <- ps :: PacketOk(p, comp)
  {
    if ps == [] then [] else PacketBytes(ps[0], comp) + AllBytes(ps[1..], comp)
  }

  // ----- A decoder -----

  /** n pixels from the front of b. */
  function ReadPixels(b: seq<byte>, n: nat, comp: nat): (r: Option<(seq<Pixel>, seq<byte>)>)
    requires 1 <= comp <= 4
    ensures r.Some? ==> |r.value.1| <= |b|
  {
    if n == 0 then Some(([], b))
    else if |b| < comp then None
    else
      match ReadPixels(b[comp..], n - 1, comp)
      case None => None
      case Some((s, rest)) => Some(([ReadPixel(b[..comp])] + s, rest))
  }

  /** All pixels of a packet stream. */
  function Decode(b: seq<byte>, comp: nat): (s: Option<seq<Pixel>>)
    requires 1 <= comp <= 4
    decreases |b|
  {
    if b == [] then Some([])
    else
      var n := if b[0] < 128 then b[0] + 1 else 1;
      match ReadPixels(b[1..], n, comp)
      case None => None
      case Some((s, rest)) =>
        var first := if b[0] < 128 then s else Repeat(b[0] - 127, s[0]);
        match Decode(rest, comp)
        case None => None
        case Some(others) => Some(first + others)
  }

  lemma ReadOne(d: Pixel, tail: seq<byte>, n: nat, comp: nat)
    requires 1 <= comp <= 4 && |d| == comp
    ensures ReadPixels(PixelBytes(d) + tail, n + 1, comp)
         == match ReadPixels(tail, n, comp) { case None => None case Some((s, rest)) => Some(([d] + s, rest)) }
  {
    hide PixelBytes, ReadPixel;
    TakeDrop(PixelBytes(d), tail);
    PixelRoundTrip(d);
  }

  /** Pixels written one after the other are read back. */
  lemma {:induction false} ReadWritten(s: seq<Pixel>, comp: nat, rest: seq<byte>)
    requires 1 <= comp <= 4 && forall q <- s :: |q| == comp
    ensures ReadPixels(PixelsBytes(s) + rest, |s|, comp) == Some((s, rest))
  {
    hide PixelBytes;
    if s == [] {
      assert PixelsBytes(s) + rest == rest;
    } else {
      var d := s[0];
      ReadWritten(s[1..], comp, rest);
      ReadOne(d, PixelsBytes(s[1..]) + rest, |s[1..]|, comp);
      Assoc(PixelBytes(d), PixelsBytes(s[1..]), rest);
      assert [d] + s[1..] == s;
    }
  }

  lemma OnePixel(p: Pixel)
    requires 1 <= |p| <= 4
    ensures PixelsBytes([p]) == PixelBytes(p)
  {
    assert PixelsBytes([p][1..]) == [];
  }

  /** One step of the decoder. */
  lemma DecodeStep(head: byte, b: seq<byte>, comp: nat, s: seq<Pixel>, rest: seq<byte>)
    requires 1 <= comp <= 4
    requires ReadPixels(b, if head < 128 then head + 1 else 1, comp) == Some((s, rest)) && s != []
    ensures Decode([head] + b, comp)
         == match Decode(rest, comp) {
              case None => None
              case Some(others) => Some((if head < 128 then s else Repeat(head - 127, s[0])) + others) }
  {
    hide ReadPixels, Repeat;
    assert ([head] + b)[1..] == b;
  }

  /** The first packet of a stream is expanded, and decoding goes on behind it. */
  lemma DecodeFirst(p: Packet, comp: nat, rest: seq<byte>)
    requires 1 <= comp <= 4 && PacketOk(p, comp)
    ensures Decode(PacketBytes(p, comp) + rest, comp)
         == match Decode(rest, comp) { case None => None case Some(others) => Some(Expand(p) + others) }
  {
    hide PixelsBytes, PixelBytes, ReadPixels, Decode;
    match p {
      case Raw(pixels) =>
        ReadWritten(pixels, comp, rest);
        DecodeStep(|pixels| - 1, PixelsBytes(pixels) + rest, comp, pixels, rest);
        Assoc([|pixels| - 1], PixelsBytes(pixels), rest);
      case Run(count, pixel) =>
        assert Repeat(count, pixel)[0] == pixel;
        OnePixel(pixel);
        ReadWritten([pixel], comp, rest);
        DecodeStep(128 + (count - 1), PixelsBytes([pixel]) + rest, comp, [pixel], rest);
        Assoc([128 + (count - 1)], PixelBytes(pixel), rest);
    }
  }

  /** Expanding a packet stream restores the pixels. */
  lemma {:induction false} DecodeAll(ps: seq<Packet>, comp: nat)
    requires 1 <= comp <= 4 && forall p <- ps :: PacketOk(p, comp)
    ensures Decode(AllBytes(ps, comp), comp) == Some(ExpandAll(ps))
  {
    hide PacketBytes, PacketOk, Expand, Decode;
    if ps == [] {
      DecodeNothing(comp);
    } else {
      assert ps[0] in ps;
      DecodeAll(ps[1..], comp);
      DecodeFirst(ps[0], comp, AllBytes(ps[1..], comp));
    }
  }

  lemma DecodeNothing(comp: nat)
    requires 1 <= comp <= 4
    ensures Decode([], comp) == Some([])
  {
  }

  lemma {:induction false} Append(ps: seq<Packet>, qs: seq<Packet>, comp: nat)
    requires 1 <= comp <= 4 && (forall p <- ps :: PacketOk(p, comp)) && forall q <- qs :: PacketOk(q, comp)
    ensures forall p <- ps + qs :: PacketOk(p, comp)
    ensures AllBytes(ps + qs, comp) == AllBytes(ps, comp) + AllBytes(qs, comp)
    ensures ExpandAll(ps + qs) == ExpandAll(ps) + ExpandAll(qs)
  {
    hide PacketBytes, PacketOk, Expand;
    if ps == [] {
      assert ps + qs == qs;
    } else {
      assert ps[0] in ps;
      Append(ps[1..], qs, comp);
      assert (ps + qs)[1..] == ps[1..] + qs;
      Assoc(PacketBytes(ps[0], comp), AllBytes(ps[1..], comp), AllBytes(qs, comp));
      Assoc(Expand(ps[0]), ExpandAll(ps[1..]), ExpandAll(qs));
    }
  }

  lemma AppendOne(ps: seq<Packet>, q: Packet, comp: nat)
    requires 1 <= comp <= 4 && (forall p <- ps :: PacketOk(p, comp)) && PacketOk(q, comp)
    ensures forall p <- ps + [q] :: PacketOk(p, comp)
    ensures AllBytes(ps + [q], comp) == AllBytes(ps, comp) + PacketBytes(q, comp)
    ensures ExpandAll(ps + [q]) == ExpandAll(ps) + Expand(q)
  {
    hide PacketBytes, PacketOk, Expand;
    Append(ps, [q], comp);
    assert [q][1..] == [];
    assert AllBytes([q], comp) == PacketBytes(q, comp) + AllBytes([], comp);
    assert ExpandAll([q]) == Expand(q) + ExpandAll([]);
  }

  // ----- The encoder -----

  /** A run goes on as long as the pixels equal the first one, up to 128. */
  predicate RunEnds(row: seq<Pixel>, i: nat, len: nat) {
    && 1 <= len <= 128 && i + len <= |row| && (forall k | i <= k < i + len :: row[k] == row[i])
    && (len == 128 || i + len == |row| || row[i + len] != row[i])
  }

  /** A packet of differing pixels ends one pixel before a pixel that equals the one two before it, or after 128. */
  predicate RawEnds(row: seq<Pixel>, i: nat, len: nat) {
    && 1 <= len <= 128 && i + len <= |row| && (forall k | i + 2 <= k < i + len :: row[k] != row[k - 2])
    && (i + len == |row| || len == 128 || (i + len + 1 < |row| && row[i + len + 1] == row[i + len - 1]))
  }

  /** How many pixels the next packet takes, and whether they differ. */
  method NextPacket(row: seq<Pixel>, i: nat) returns (diff: bool, len: nat)
    requires i < |row|
    ensures !diff <==> i + 1 < |row| && row[i] == row[i + 1]
    ensures if diff then RawEnds(row, i, len) else RunEnds(row, i, len)
  {
    diff, len := true, 1;
    if i < |row| - 1 {
      len := len + 1;
      diff := row[i] != row[i + 1];
      var k := i + 2;
      if diff {
        var prev := i;
        while k < |row| && len < 128
          invariant k == i + len && len <= 128 && 2 <= len && prev == k - 2 && k <= |row|
          invariant forall j | i + 2 <= j < k :: row[j] != row[j - 2]
          decreases |row| - k
        {
          if row[prev] != row[k] {
            prev := prev + 1;
            len := len + 1;
          } else {
            len := len - 1;
            break;
          }
          k := k + 1;
        }
      } else {
        while k < |row| && len < 128
          invariant k == i + len && 2 <= len <= 128 && k <= |row|
          invariant forall j | i <= j < i + len :: row[j] == row[i]
          decreases |row| - k
        {
          if row[i] == row[k] {
            len := len + 1;
          } else {
            break;
          }
          k := k + 1;
        }
      }
    }
  }

  /** A pixel of a TGA image: colour bytes in reverse order, then alpha if there is any. */
  method WritePixel(s: WriteContext, comp: nat, hasAlpha: bool, d: Pixel)
    requires s.Valid() && 1 <= comp <= 4 && |d| == comp && hasAlpha == (comp == 2 || comp == 4)
    modifies s, s.buffer
    ensures s.Valid() && s.Written() == old(s.Written()) + PixelBytes(d)
  {
    ghost var before := s.Written();
    if comp <= 2 {
      s.Write1(d[0]);
    } else {
      s.Write3(d[2], d[1], d[0]);
    }
    if hasAlpha {
      ghost var colour := if comp <= 2 then [d[0]] else [d[2], d[1], d[0]];
      Assoc(before, colour, [d[comp - 1]]);
      s.Write1(d[comp - 1]);
      assert colour + [d[comp - 1]] == PixelBytes(d);
    }
  }

  method WritePixels(s: WriteContext, comp: nat, hasAlpha: bool, ds: seq<Pixel>)
    requires s.Valid() && 1 <= comp <= 4 && hasAlpha == (comp == 2 || comp == 4) && forall d <- ds :: |d| == comp
    modifies s, s.buffer
    ensures s.Valid() && s.Written() == old(s.Written()) + PixelsBytes(ds)
  {
    ghost var before := s.Written();
    assert ds[..0] == [];
    for k := 0 to |ds|
      invariant s.Valid() && s.Written() == before + PixelsBytes(ds[..k])
    {
      WritePixel(s, comp, hasAlpha, ds[k]);
      MorePixels(ds, k);
      Assoc(before, PixelsBytes(ds[..k]), PixelBytes(ds[k]));
    }
    assert ds[..|ds|] == ds;
  }

  lemma MorePixels(ds: seq<Pixel>, k: nat)
    requires k < |ds| && forall d <- ds :: 1 <= |d| <= 4
    ensures PixelsBytes(ds[..k + 1]) == PixelsBytes(ds[..k]) + PixelBytes(ds[k])
  {
    SnocPixels(ds[..k], ds[k]);
    assert ds[..k + 1] == ds[..k] + [ds[k]];
  }

  lemma {:induction false} SnocPixels(ds: seq<Pixel>, d: Pixel)
    requires (forall q <- ds :: 1 <= |q| <= 4) && 1 <= |d| <= 4
    ensures PixelsBytes(ds + [d]) == PixelsBytes(ds) + PixelBytes(d)
  {
    hide PixelBytes;
    if ds == [] {
      OnePixel(d);
      assert ds + [d] == [d];
    } else {
      assert (ds + [d])[1..] == ds[1..] + [d];
      SnocPixels(ds[1..], d);
      Assoc(PixelBytes(ds[0]), PixelsBytes(ds[1..]), PixelBytes(d));
    }
  }

  lemma RawPacket(row: seq<Pixel>, i: nat, len: nat, comp: nat)
    requires 1 <= comp <= 4 && 1 <= len <= 128 && i + len <= |row| && forall d <- row :: |d| == comp
    ensures forall d <- row[i..i + len] :: |d| == comp
    ensures PacketOk(Raw(row[i..i + len]), comp)
    ensures PacketBytes(Raw(row[i..i + len]), comp) == [len - 1] + PixelsBytes(row[i..i + len])
    ensures Expand(Raw(row[i..i + len])) == row[i..i + len]
  {
    hide PixelsBytes;
  }

  lemma RunPacket(row: seq<Pixel>, i: nat, len: nat, comp: nat)
    requires 1 <= comp <= 4 && 1 <= len <= 128 && i + len <= |row| && |row[i]| == comp
    requires forall k | i <= k < i + len :: row[k] == row[i]
    ensures PacketOk(Run(len, row[i]), comp)
    ensures PacketBytes(Run(len, row[i]), comp) == [(len - 129) % 256] + PixelBytes(row[i])
    ensures Expand(Run(len, row[i])) == row[i..i + len]
  {
    hide PixelBytes;
    assert Repeat(len, row[i]) == row[i..i + len];
  }

  /** One packet of the row. */
  method WritePacket(s: WriteContext, comp: nat, row: seq<Pixel>, i: nat) returns (len: nat, ghost p: Packet)
    requires s.Valid() && 1 <= comp <= 4 && i < |row| && forall d <- row :: |d| == comp
    modifies s, s.buffer
    ensures s.Valid() && PacketOk(p, comp) && s.Written() == old(s.Written()) + PacketBytes(p, comp)
    ensures 1 <= len && i + len <= |row| && Expand(p) == row[i..i + len]
    ensures p.Run? <==> i + 1 < |row| && row[i] == row[i + 1]
    ensures if p.Run? then RunEnds(row, i, len) else RawEnds(row, i, len)
  {
    hide PixelsBytes, PixelBytes, PacketOk, PacketBytes, Expand;
    var diff;
    diff, len := NextPacket(row, i);
    var hasAlpha := comp == 2 || comp == 4;
    ghost var before := s.Written();
    if diff {
      RawPacket(row, i, len, comp);
      p := Raw(row[i..i + len]);
      Assoc(before, [len - 1], PixelsBytes(row[i..i + len]));
      s.Write1(len - 1);
      WritePixels(s, comp, hasAlpha, row[i..i + len]);
    } else {
      RunPacket(row, i, len, comp);
      p := Run(len, row[i]);
      Assoc(before, [(len - 129) % 256], PixelBytes(row[i]));
      s.Write1((len - 129) % 256);
      WritePixel(s, comp, hasAlpha, row[i]);
    }
  }

  /** The packets of one row. None reaches into the next row. */
  method WriteRow(s: WriteContext, comp: nat, row: seq<Pixel>) returns (ghost ps: seq<Packet>)
    requires s.Valid() && 1 <= comp <= 4 && forall d <- row :: |d| == comp
    modifies s, s.buffer
    ensures s.Valid() && (forall p <- ps :: PacketOk(p, comp)) && ExpandAll(ps) == row
    ensures s.Written() == old(s.Written()) + AllBytes(ps, comp)
  {
    hide PacketBytes, Expand, PacketOk, AllBytes, ExpandAll;
    ghost var before := s.Written();
    ps := [];
    NoPackets(comp);
    var i := 0;
    while i < |row|
      invariant i <= |row| && s.Valid() && (forall p <- ps :: PacketOk(p, comp)) && ExpandAll(ps) == row[..i]
      invariant s.Written() == before + AllBytes(ps, comp)
    {
      var len;
      ghost var p;
      len, p := WritePacket(s, comp, row, i);
      AppendOne(ps, p, comp);
      Assoc(before, AllBytes(ps, comp), PacketBytes(p, comp));
      assert row[..i + len] == row[..i] + row[i..i + len];
      ps := ps + [p];
      i := i + len;
    }
    assert row[..i] == row;
  }

  // ----- The image -----

  lemma PixelInside(x: nat, comp: nat, i: nat)
    requires i < x
    ensures i * comp + comp <= x * comp
  {
    MulMonotone(i + 1, x, comp);
  }

  function PixelAt(bytes: seq<byte>, x: nat, comp: nat, i: nat): (d: Pixel)
    requires |bytes| == x * comp && i < x
    ensures |d| == comp
  {
    PixelInside(x, comp, i);
    bytes[i * comp..i * comp + comp]
  }

  /** Row j of an image with x pixels of comp bytes to a row. */
  function RowOf(data: seq<byte>, x: nat, comp: nat, j: nat): (row: seq<Pixel>)
    requires j * (x * comp) + x * comp <= |data|
    ensures |row| == x && forall d <- row :: |d| == comp
  {
    var bytes := data[j * (x * comp)..j * (x * comp) + x * comp];
    seq(x, i requires 0 <= i < x => PixelAt(bytes, x, comp, i))
  }

  lemma RowInside(y: nat, rowBytes: nat, j: nat)
    requires j < y
    ensures j * rowBytes + rowBytes <= y * rowBytes
  {
    MulMonotone(j + 1, y, rowBytes);
  }

  /** The pixels of the first k rows written: bottom up, or top down when flipped. */
  function RowsWritten(data: seq<byte>, x: nat, y: nat, comp: nat, flip: bool, k: nat): seq<Pixel>
    requires y * (x * comp) <= |data| && k <= y
  {
    if k == 0 then []
    else
      var j := if flip then k - 1 else y - k;
      RowInside(y, x * comp, j);
      RowsWritten(data, x, y, comp, flip, k - 1) + RowOf(data, x, comp, j)
  }

  /** Where pixel i of row j begins: the pixels of all rows stand one after the other. */
  lemma PixelPlace(x: nat, comp: nat, j: nat, i: nat) returns (row: nat, at: nat)
    ensures row == j * (x * comp) && at == row + i * comp == (j * x + i) * comp
  {
    row, at := j * (x * comp), (j * x + i) * comp;
    MulAssoc(j, x, comp);
    MulAdd(j * x, i, comp);
  }

  lemma PixelInRow(data: seq<byte>, x: nat, comp: nat, j: nat, i: nat, row: nat, at: nat)
    requires row == j * (x * comp) && row + x * comp <= |data| && i < x && at == row + i * comp
    ensures at + comp <= |data| && RowOf(data, x, comp, j)[i] == data[at..at + comp]
  {
    PixelInside(x, comp, i);
    SliceOfSlice(data, row, x * comp, i * comp, comp);
  }

  lemma SliceOfSlice(data: seq<byte>, a: nat, n: nat, b: nat, m: nat)
    requires a + n <= |data| && b + m <= n
    ensures data[a..a + n][b..b + m] == data[a + b..a + b + m]
  {
    var inner, outer := data[a..a + n][b..b + m], data[a + b..a + b + m];
    assert forall k | 0 <= k < m :: inner[k] == outer[k];
  }

  /** Pixel i of the k-th row written is number k * x + i. */
  lemma {:induction false} RowsStand(data: seq<byte>, x: nat, y: nat, comp: nat, flip: bool, n: nat, k: nat, i: nat)
    returns (t: nat)
    requires y * (x * comp) <= |data| && k < n <= y && i < x
    ensures t == k * x + i < |RowsWritten(data, x, y, comp, flip, n)|
    ensures var j := if flip then k else y - 1 - k;
      && j * (x * comp) + x * comp <= |data|
      && RowsWritten(data, x, y, comp, flip, n)[t] == RowOf(data, x, comp, j)[i]
  {
    hide RowOf, RowsWritten;
    var m := n - 1;
    NextRowWritten(data, x, y, comp, flip, m);
    if k < m {
      t := RowsStand(data, x, y, comp, flip, m, k, i);
    } else {
      var start := RowsLength(data, x, y, comp, flip, k);
      t := start + i;
    }
  }

  lemma {:induction false} RowsLength(data: seq<byte>, x: nat, y: nat, comp: nat, flip: bool, n: nat) returns (t: nat)
    requires y * (x * comp) <= |data| && n <= y
    ensures t == |RowsWritten(data, x, y, comp, flip, n)| == n * x
  {
    hide RowOf, RowsWritten;
    NoRows(data, x, y, comp, flip);
    t := 0;
    if n > 0 {
      NextRowWritten(data, x, y, comp, flip, n - 1);
      var before := RowsLength(data, x, y, comp, flip, n - 1);
      t := before + x;
      MulAdd(n - 1, 1, x);
    }
  }

  /**
   All pixels are sent, and pixel i of the k-th row sent is that pixel of the k-th row of the image from the bottom or,
   flipped, from the top.
   */
  lemma PixelSent(data: seq<byte>, x: nat, y: nat, comp: nat, flip: bool, k: nat, i: nat) returns (all: nat, t: nat, at: nat)
    requires y * (x * comp) <= |data| && k < y && i < x
    ensures t == k * x + i < all == y * x && at == ((if flip then k else y - 1 - k) * x + i) * comp
    ensures at + comp <= |data| && all == |RowsWritten(data, x, y, comp, flip, y)|
    ensures RowsWritten(data, x, y, comp, flip, y)[t] == data[at..at + comp]
  {
    hide RowOf, RowsWritten;
    var row;
    row, at := PixelPlace(x, comp, if flip then k else y - 1 - k, i);
    all := RowsLength(data, x, y, comp, flip, y);
    t := RowsStand(data, x, y, comp, flip, y, k, i);
    PixelInRow(data, x, comp, if flip then k else y - 1 - k, i, row, at);
  }

  lemma NextRowWritten(data: seq<byte>, x: nat, y: nat, comp: nat, flip: bool, k: nat)
    requires y * (x * comp) <= |data| && k < y
    ensures var j := if flip then k else y - 1 - k;
      && j * (x * comp) + x * comp <= |data|
      && RowsWritten(data, x, y, comp, flip, k + 1) == RowsWritten(data, x, y, comp, flip, k) + RowOf(data, x, comp, j)
  {
    RowInside(y, x * comp, if flip then k else y - 1 - k);
  }

  /** The run-length branch of the TGA writer. What the callback receives behind the header decodes to all pixels. */
  method WriteTgaPackets(s: WriteContext, x: nat, y: nat, comp: nat, data: seq<byte>, flip: bool)
    requires s.Valid() && s.Written() == [] && 1 <= comp <= 4 && y * (x * comp) <= |data|
    modifies s, s.buffer
    ensures s.Valid() && s.bufUsed == 0
    ensures Decode(s.sent, comp) == Some(RowsWritten(data, x, y, comp, flip, y))
  {
    hide AllBytes, ExpandAll, Decode, PacketOk, RowOf, RowsWritten;
    var j: int, jend, jdir := if flip then 0 else y - 1, if flip then y else -1, if flip then 1 else -1;
    ghost var k, ps := 0, [];
    NoPackets(comp);
    NoRows(data, x, y, comp, flip);
    while j != jend
      invariant 0 <= k <= y && j == if flip then k else y - 1 - k
      invariant s.Valid() && (forall p <- ps :: PacketOk(p, comp))
      invariant s.Written() == AllBytes(ps, comp) && ExpandAll(ps) == RowsWritten(data, x, y, comp, flip, k)
      decreases y - k
    {
      NextRowWritten(data, x, y, comp, flip, k);
      ghost var row := WriteRow(s, comp, RowOf(data, x, comp, j));
      Append(ps, row, comp);
      ps, k := ps + row, k + 1;
      j := j + jdir;
    }
    s.Flush();
    DecodeAll(ps, comp);
  }

  lemma NoRows(data: seq<byte>, x: nat, y: nat, comp: nat, flip: bool)
    requires y * (x * comp) <= |data|
    ensures RowsWritten(data, x, y, comp, flip, 0) == []
  {
  }

  lemma NoPackets(comp: nat)
    requires 1 <= comp <= 4
    ensures AllBytes([], comp) == [] && ExpandAll([]) == []
  {
  }
}
