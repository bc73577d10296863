/** Run-length coded scanlines of Radiance HDR images: four byte planes, each as dumps and runs. */
module HdrRle {
  import opened Basics

  /** Red, green, blue mantissas and the shared exponent. */
  type Rgbe = p: seq<byte> | |p| == 4 witness [0, 0, 0, 0]

  datatype Packet =
    | Dump(bytes: seq<byte>)
    | Run(count: nat, value: byte)

  function Repeat(n: nat, v: byte): (s: seq<byte>)
    ensures |s| == n
  {
    seq(n, _ => v)
  }

  function Expand(p: Packet): seq<byte> {
    match p
    case Dump(bytes) => bytes
    case Run(count, value) => Repeat(count, value)
  }

  /** Dumps of 1 to 128 bytes, runs of 1 to 127. */
  predicate PacketOk(p: Packet) {
    match p
    case Dump(bytes) => 1 <= |bytes| <= 128
    case Run(count, _) => 1 <= count <= 127
  }

  function PacketBytes(p: Packet): (b: seq<byte>)
    requires PacketOk(p)
  {
    match p
    case Dump(bytes) => [|bytes|] + bytes
    case Run(count, value) => [count + 128, value]
  }

  function ExpandAll(ps: seq<Packet>): seq<byte> {
    if ps == [] then [] else Expand(ps[0]) + ExpandAll(ps[1..])
  }

  function AllBytes(ps: seq<Packet>): seq<byte>
    requires forall p <- ps :: PacketOk(p)
  {
    if ps == [] then [] else PacketBytes(ps[0]) + AllBytes(ps[1..])
  }

  // ----- A reader -----

  /** n bytes of a plane, and what follows them. A header above 128 is a run, any other but 0 a dump. */
  function ReadPlane(b: seq<byte>, n: nat): (r: Option<(seq<byte>, seq<byte>)>)
    ensures r.Some? ==> |r.value.0| == n
    decreases n
  {
    if n == 0 then Some(([], b))
    else if |b| < 2 || b[0] == 0 then None
    else
      var count := if b[0] > 128 then b[0] - 128 else b[0];
      if count > n || (b[0] <= 128 && |b| < 1 + count) then None
      else
        var first := if b[0] > 128 then Repeat(count, b[1]) else b[1..1 + count];
        match ReadPlane(b[if b[0] > 128 then 2 else 1 + count..], n - count)
        case None => None
        case Some((s, rest)) => Some((first + s, rest))
  }

  function ReadPlanes(b: seq<byte>, k: nat, n: nat): (r: Option<seq<seq<byte>>>)
    ensures r.Some? ==> |r.value| == k && forall p <- r.value :: |p| == n
    decreases k
  {
    if k == 0 then if b == [] then Some([]) else None
    else
      match ReadPlane(b, n)
      case None => None
      case Some((plane, rest)) =>
        match ReadPlanes(rest, k - 1, n)
        case None => None
        case Some(planes) => Some([plane] + planes)
  }

  /**
   Flat pixels. Old readers take (1, 1, 1, n) as a repeat of the pixel before it; the largest mantissa of a pixel that the
   conversion to RGBE yields is at least 128, or all four bytes are 0.
   */
  function ReadFlat(b: seq<byte>): Option<seq<Rgbe>> {
    if b == [] then Some([])
    else if |b| < 4 then None
    else
      match ReadFlat(b[4..])
      case None => None
      case Some(pixels) => Some([b[..4]] + pixels)
  }

  /** A scanline of known width: flat pixels, or a header with the width and four planes. */
  function ReadScanline(b: seq<byte>, width: nat): Option<seq<Rgbe>> {
    if width < 8 || width > 0x7fff then ReadFlat(b)
    else if |b| < 4 || b[..4] != [2, 2, width / 256, width % 256] then None
    else
      match ReadPlanes(b[4..], 4, width)
      case None => None
      case Some(planes) =>
        Some(seq(width, i requires 0 <= i < width => [planes[0][i], planes[1][i], planes[2][i], planes[3][i]]))
  }

  // ----- Reading undoes writing -----

  lemma ReadFirst(p: Packet, tail: seq<byte>, n: nat)
    requires PacketOk(p) && |Expand(p)| <= n
    ensures ReadPlane(PacketBytes(p) + tail, n)
         == match ReadPlane(tail, n - |Expand(p)|) { case None => None case Some((s, rest)) => Some((Expand(p) + s, rest)) }
  {
    var b := PacketBytes(p) + tail;
    match p {
      case Dump(bytes) =>
        assert b[1..1 + |bytes|] == bytes;
        assert b[1 + |bytes|..] == tail;
      case Run(count, value) =>
        assert b[2..] == tail;
    }
  }

  /** A plane is read back from its packets, up to just where they end. */
  lemma {:induction false} ReadAll(ps: seq<Packet>, rest: seq<byte>)
    requires forall p <- ps :: PacketOk(p)
    ensures ReadPlane(AllBytes(ps) + rest, |ExpandAll(ps)|) == Some((ExpandAll(ps), rest))
  {
    hide PacketBytes, Expand, PacketOk;
    if ps == [] {
      NothingToRead(rest);
    } else {
      assert ps[0] in ps;
      ReadAll(ps[1..], rest);
      Assoc(PacketBytes(ps[0]), AllBytes(ps[1..]), rest);
      ReadFirst(ps[0], AllBytes(ps[1..]) + rest, |ExpandAll(ps)|);
    }
  }

  lemma NothingToRead(rest: seq<byte>)
    ensures AllBytes([]) == [] && ExpandAll([]) == [] && [] + rest == rest && ReadPlane(rest, 0) == Some(([], rest))
  {
  }

  lemma {:induction false} AppendOne(ps: seq<Packet>, q: Packet)
    requires (forall p <- ps :: PacketOk(p)) && PacketOk(q)
    ensures forall p <- ps + [q] :: PacketOk(p)
    ensures AllBytes(ps + [q]) == AllBytes(ps) + PacketBytes(q) && ExpandAll(ps + [q]) == ExpandAll(ps) + Expand(q)
  {
    hide PacketBytes, Expand, PacketOk;
    if ps == [] {
      assert ps + [q] == [q] && [q][1..] == [];
      assert AllBytes([q]) == PacketBytes(q) + AllBytes([]);
      assert ExpandAll([q]) == Expand(q) + ExpandAll([]);
    } else {
      assert ps[0] in ps;
      AppendOne(ps[1..], q);
      assert (ps + [q])[1..] == ps[1..] + [q];
      Assoc(PacketBytes(ps[0]), AllBytes(ps[1..]), PacketBytes(q));
      Assoc(Expand(ps[0]), ExpandAll(ps[1..]), Expand(q));
    }
  }

  // ----- The writer -----

  /** What was written is the packets of the plane's first x bytes. */
  ghost predicate Written(start: seq<byte>, out: seq<byte>, ps: seq<Packet>, plane: seq<byte>, x: nat) {
    x <= |plane| && (forall p <- ps :: PacketOk(p)) && out == start + AllBytes(ps) && ExpandAll(ps) == plane[..x]
  }

  lemma WrittenMore(start: seq<byte>, out: seq<byte>, ps: seq<Packet>, plane: seq<byte>, x: nat, p: Packet, len: nat)
    requires Written(start, out, ps, plane, x) && PacketOk(p) && x + len <= |plane| && Expand(p) == plane[x..x + len]
    ensures Written(start, out + PacketBytes(p), ps + [p], plane, x + len)
  {
    hide PacketBytes, Expand, PacketOk;
    AppendOne(ps, p);
    Assoc(start, AllBytes(ps), PacketBytes(p));
    assert plane[..x + len] == plane[..x] + plane[x..x + len];
  }

  /** The first place from x on where three equal bytes begin, or the end of the plane. */
  method FindRun(plane: seq<byte>, x: nat) returns (r: nat)
    requires x < |plane|
    ensures x <= r <= |plane|
    ensures r + 2 < |plane| ==> plane[r] == plane[r + 1] == plane[r + 2]
    ensures r + 2 >= |plane| ==> r == |plane|
    ensures forall j | x <= j < r && j + 2 < |plane| :: !(plane[j] == plane[j + 1] == plane[j + 2])
  {
    r := x;
    while r + 2 < |plane|
      invariant x <= r && (r + 1 < |plane| || r <= |plane|)
      invariant forall j | x <= j < r && j + 2 < |plane| :: !(plane[j] == plane[j + 1] == plane[j + 2])
      decreases |plane| - r
    {
      if plane[r] == plane[r + 1] && plane[r] == plane[r + 2] {
        break;
      }
      r := r + 1;
    }
    if r + 2 >= |plane| {
      r := |plane|;
    }
  }

  predicate NoTriple(s: seq<byte>) {
    forall j | 0 <= j && j + 2 < |s| :: !(s[j] == s[j + 1] == s[j + 2])
  }

  /** A dump has no three equal bytes in a row, a run has at least three; a longer stretch is cut at the maximum only. */
  predicate MayFollow(ps: seq<Packet>, p: Packet) {
    match p
    case Dump(bytes) => NoTriple(bytes) && (ps != [] && Last(ps).Dump? ==> |Last(ps).bytes| == 128)
    case Run(count, v) =>
      if ps != [] && Last(ps).Run? && Last(ps).value == v then Last(ps).count == 127 else count >= 3
  }

  function Last(ps: seq<Packet>): Packet
    requires ps != []
  {
    ps[|ps| - 1]
  }

  ghost predicate Thrifty(ps: seq<Packet>) {
    forall k | 0 <= k < |ps| :: MayFollow(ps[..k], ps[k])
  }

  lemma ThriftyMore(ps: seq<Packet>, p: Packet)
    requires Thrifty(ps) && MayFollow(ps, p)
    ensures Thrifty(ps + [p]) && Last(ps + [p]) == p
  {
    hide MayFollow;
    forall k | 0 <= k < |ps + [p]|
      ensures MayFollow((ps + [p])[..k], (ps + [p])[k])
    {
      assert (ps + [p])[..k] == if k == |ps| then ps else ps[..k];
    }
  }

  lemma DumpStep(start: seq<byte>, out: seq<byte>, ps: seq<Packet>, plane: seq<byte>, x: nat, len: nat)
    requires Written(start, out, ps, plane, x) && Thrifty(ps) && 1 <= len <= 128 && x + len <= |plane|
    requires forall j | x <= j < x + len && j + 2 < |plane| :: !(plane[j] == plane[j + 1] == plane[j + 2])
    requires ps != [] && Last(ps).Dump? ==> |Last(ps).bytes| == 128
    ensures Written(start, out + ([len] + plane[x..x + len]), ps + [Dump(plane[x..x + len])], plane, x + len)
    ensures Thrifty(ps + [Dump(plane[x..x + len])])
  {
    hide Written, Thrifty;
    WrittenMore(start, out, ps, plane, x, Dump(plane[x..x + len]), len);
    ThriftyMore(ps, Dump(plane[x..x + len]));
  }

  lemma RunStep(start: seq<byte>, out: seq<byte>, ps: seq<Packet>, plane: seq<byte>, x: nat, len: nat)
    requires Written(start, out, ps, plane, x) && Thrifty(ps) && 1 <= len <= 127 && x + len <= |plane|
    requires forall j | x <= j < x + len :: plane[j] == plane[x]
    requires if ps != [] && Last(ps).Run? && Last(ps).value == plane[x] then Last(ps).count == 127 else len >= 3
    ensures Written(start, out + [len + 128, plane[x]], ps + [Run(len, plane[x])], plane, x + len)
    ensures Thrifty(ps + [Run(len, plane[x])])
  {
    hide Written, Thrifty;
    assert Repeat(len, plane[x]) == plane[x..x + len];
    WrittenMore(start, out, ps, plane, x, Run(len, plane[x]), len);
    ThriftyMore(ps, Run(len, plane[x]));
  }

  /** At x a dump has just ended with the plane, or a run that does not go on. */
  predicate Between(ps: seq<Packet>, plane: seq<byte>, x: nat) {
    ps != [] && x < |plane| ==> Last(ps).Run? && Last(ps).value != plane[x]
  }

  /** The packets of one plane: bytes up to the next run are dumped, then the run is written. */
  method WritePlane(start: seq<byte>, plane: seq<byte>) returns (out: seq<byte>, ghost b: seq<byte>, ghost ps: seq<Packet>)
    ensures out == start + b && IsPlane(b, plane)
    ensures (forall p <- ps :: PacketOk(p)) && b == AllBytes(ps) && Thrifty(ps)
  {
    hide Written, IsPlane, Thrifty, PacketOk, AllBytes, MayFollow;
    out := start;
    ps := [];
    var x, width := 0, |plane|;
    NothingWritten(start, plane);
    while x < width
      invariant x <= width && Written(start, out, ps, plane, x) && Thrifty(ps) && Between(ps, plane, x)
      decreases width - x
    {
      var r := FindRun(plane, x);
      ghost var first := x;
      while x < r
        invariant first <= x <= r && Written(start, out, ps, plane, x) && Thrifty(ps)
        invariant x < r && ps != [] && Last(ps).Dump? ==> |Last(ps).bytes| == 128
        invariant if x == first then Between(ps, plane, x) else ps != [] && Last(ps).Dump?
      {
        var len := if r - x > 128 then 128 else r - x;
        DumpStep(start, out, ps, plane, x, len);
        ps := ps + [Dump(plane[x..x + len])];
        out := out + ([len] + plane[x..x + len]);
        x := x + len;
      }
      if r + 2 < width {
        ghost var from := x;
        while r < width && plane[r] == plane[x]
          invariant from <= r <= width && forall j | x <= j < r :: plane[j] == plane[x]
          invariant r < from + 3 ==> plane[from] == plane[from + 1] == plane[from + 2]
        {
          r := r + 1;
        }
        while x < r
          invariant from <= x <= r && Written(start, out, ps, plane, x)
          invariant forall j | from <= j < r :: plane[j] == plane[from]
          invariant Thrifty(ps)
          invariant if x == from then ps == [] || Last(ps).Dump? || Last(ps).value != plane[x]
                    else ps != [] && Last(ps).Run? && Last(ps).value == plane[from] && (x < r ==> Last(ps).count == 127)
        {
          var len := if r - x > 127 then 127 else r - x;
          RunStep(start, out, ps, plane, x, len);
          ps := ps + [Run(len, plane[x])];
          out := out + [len + 128, plane[x]];
          x := x + len;
        }
      }
    }
    WholePlane(start, out, ps, plane);
    b := AllBytes(ps);
  }

  lemma WholePlane(start: seq<byte>, out: seq<byte>, ps: seq<Packet>, plane: seq<byte>)
    requires Written(start, out, ps, plane, |plane|)
    ensures (forall p <- ps :: PacketOk(p)) && out == start + AllBytes(ps) && IsPlane(AllBytes(ps), plane)
  {
    hide AllBytes, ExpandAll, ReadPlane, PacketOk;
    assert plane[..|plane|] == plane;
    forall rest
      ensures ReadPlane(AllBytes(ps) + rest, |plane|) == Some((plane, rest))
    {
      ReadAll(ps, rest);
    }
  }

  lemma NothingWritten(start: seq<byte>, plane: seq<byte>)
    ensures Written(start, start, [], plane, 0) && Thrifty([])
  {
  }

  /** Channel c of all pixels. */
  function Plane(pixels: seq<Rgbe>, c: nat): (p: seq<byte>)
    requires c < 4
    ensures |p| == |pixels|
  {
    seq(|pixels|, i requires 0 <= i < |pixels| => pixels[i][c])
  }

  /** b is read as this plane, whatever follows it. */
  ghost predicate IsPlane(b: seq<byte>, plane: seq<byte>) {
    forall rest :: ReadPlane(b + rest, |plane|) == Some((plane, rest))
  }

  function Join(bs: seq<seq<byte>>): seq<byte> {
    if bs == [] then [] else bs[0] + Join(bs[1..])
  }

  lemma {:induction false} JoinMore(bs: seq<seq<byte>>, b: seq<byte>)
    ensures Join(bs + [b]) == Join(bs) + b
  {
    if bs == [] {
      assert bs + [b] == [b] && [b][1..] == [];
    } else {
      JoinMore(bs[1..], b);
      assert (bs + [b])[1..] == bs[1..] + [b];
      Assoc(bs[0], Join(bs[1..]), b);
    }
  }

  /** Planes that follow one another are all read back. */
  lemma {:induction false} ReadPlanesAll(bs: seq<seq<byte>>, planes: seq<seq<byte>>, n: nat)
    requires |bs| == |planes| && forall k | 0 <= k < |bs| :: IsPlane(bs[k], planes[k]) && |planes[k]| == n
    ensures ReadPlanes(Join(bs), |bs|, n) == Some(planes)
  {
    hide ReadPlane;
    if bs != [] {
      ReadPlanesAll(bs[1..], planes[1..], n);
      assert IsPlane(bs[0], planes[0]);
      assert ReadPlane(bs[0] + Join(bs[1..]), n) == Some((planes[0], Join(bs[1..])));
      assert [planes[0]] + planes[1..] == planes;
    }
  }

  /** One scanline: flat below 8 and from 32768 pixels on, else a header and the packets of the four planes. */
  method WriteScanline(pixels: seq<Rgbe>) returns (out: seq<byte>)
    ensures ReadScanline(out, |pixels|) == Some(pixels)
  {
    var width := |pixels|;
    if width < 8 || width >= 32768 {
      out := WriteFlat(pixels);
    } else {
      out := WriteRuns(pixels);
    }
  }

  method WriteFlat(pixels: seq<Rgbe>) returns (out: seq<byte>)
    ensures ReadFlat(out) == Some(pixels)
  {
    out := [];
    for x := 0 to |pixels|
      invariant ReadFlat(out) == Some(pixels[..x])
    {
      FlatMore(out, pixels[..x], pixels[x]);
      assert pixels[..x + 1] == pixels[..x] + [pixels[x]];
      out := out + pixels[x];
    }
    assert pixels[..|pixels|] == pixels;
  }

  lemma {:induction false} FlatMore(b: seq<byte>, pixels: seq<Rgbe>, p: Rgbe)
    requires ReadFlat(b) == Some(pixels)
    ensures ReadFlat(b + p) == Some(pixels + [p])
    decreases |b|
  {
    if b == [] {
      assert b + p == p;
      assert p[..4] == p && p[4..] == [];
      assert pixels + [p] == [p] + [];
    } else {
      FlatMore(b[4..], pixels[1..], p);
      assert (b + p)[4..] == b[4..] + p && (b + p)[..4] == b[..4];
      assert [pixels[0]] + (pixels[1..] + [p]) == pixels + [p];
    }
  }

  lemma FromChannels(pixels: seq<Rgbe>)
    ensures seq(|pixels|, i requires 0 <= i < |pixels| =>
              [Plane(pixels, 0)[i], Plane(pixels, 1)[i], Plane(pixels, 2)[i], Plane(pixels, 3)[i]]) == pixels
  {
    forall i | 0 <= i < |pixels|
      ensures [Plane(pixels, 0)[i], Plane(pixels, 1)[i], Plane(pixels, 2)[i], Plane(pixels, 3)[i]] == pixels[i]
    {
    }
  }

  function Channels(pixels: seq<Rgbe>): seq<seq<byte>> {
    [Plane(pixels, 0), Plane(pixels, 1), Plane(pixels, 2), Plane(pixels, 3)]
  }

  /** Four planes that hold the channels of the pixels, behind the header, are read as those pixels. */
  lemma ReadChannels(pixels: seq<Rgbe>, bs: seq<seq<byte>>, header: seq<byte>)
    requires 8 <= |pixels| < 32768 && header == [2, 2, |pixels| / 256, |pixels| % 256]
    requires |bs| == 4 && forall k | 0 <= k < 4 :: IsPlane(bs[k], Channels(pixels)[k])
    ensures ReadScanline(header + Join(bs), |pixels|) == Some(pixels)
  {
    hide Plane, ReadPlanes, Join, IsPlane;
    ReadPlanesAll(bs, Channels(pixels), |pixels|);
    TakeDrop(header, Join(bs));
    FromChannels(pixels);
  }

  lemma NothingJoined(header: seq<byte>)
    ensures header + Join([]) == header
  {
  }

  /** The header, then the four channels as planes. */
  method WriteRuns(pixels: seq<Rgbe>) returns (out: seq<byte>)
    requires 8 <= |pixels| < 32768
    ensures ReadScanline(out, |pixels|) == Some(pixels)
  {
    hide ReadScanline, Plane, IsPlane, Join;
    var width := |pixels|;
    out := [2, 2, width / 256, width % 256];
    ghost var header, bs := out, [];
    NothingJoined(header);
    for c := 0 to 4
      invariant |bs| == c && out == header + Join(bs)
      invariant forall k | 0 <= k < c :: IsPlane(bs[k], Channels(pixels)[k])
    {
      ghost var b;
      ghost var ps;
      out, b, ps := WritePlane(out, Plane(pixels, c));
      assert Plane(pixels, c) == Channels(pixels)[c];
      JoinMore(bs, b);
      Assoc(header, Join(bs), b);
      bs := bs + [b];
    }
    ReadChannels(pixels, bs, header);
  }
}
