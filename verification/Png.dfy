/** PNG row filters as stb_image_write applies them, against the filters of ISO/IEC 15948, sections 9.2 to 9.4. */
module Png {
  import opened Basics
  import opened Inflate
  import opened Zlib

  // ----- The standard: reconstruction -----

  function Distance(p: int, x: int): nat { if p < x then x - p else p - x }

  /** Section 9.4: of the three neighbours, the one nearest to a + b - c; ties go to a, then to b. */
  function Paeth(a: byte, b: byte, c: byte): (r: byte)
    ensures r == a || r == b || r == c
    ensures var p := a + b - c; Distance(p, r) <= Distance(p, a) && Distance(p, r) <= Distance(p, b) && Distance(p, r) <= Distance(p, c)
    ensures var p := a + b - c; Distance(p, r) == Distance(p, a) ==> r == a
    ensures var p := a + b - c; Distance(p, r) == Distance(p, b) && r != a ==> r == b
  {
    var p := a + b - c;
    var pa, pb, pc := Distance(p, a), Distance(p, b), Distance(p, c);
    if pa <= pb && pa <= pc then a else if pb <= pc then b else c
  }

  /** Section 9.2: what filter type f predicts from the neighbours left, above, and above left. */
  function Predict(f: nat, a: byte, b: byte, c: byte): byte
    requires f < 5
  {
    if f == 0 then 0 else if f == 1 then a else if f == 2 then b else if f == 3 then (a + b) / 2 else Paeth(a, b, c)
  }

  /** The byte n places before position i, or 0 where there is none. */
  function Left(row: seq<byte>, i: nat, n: nat): byte
    requires i <= |row|
  {
    if 0 < n <= i then row[i - n] else 0
  }

  /** Reconstruction of a row from its filtered bytes and the row above it. */
  function Unfilter(f: nat, line: seq<byte>, above: seq<byte>, n: nat): (row: seq<byte>)
    requires f < 5 && |line| <= |above|
    ensures |row| == |line|
  {
    if line == [] then []
    else
      var i := |line| - 1;
      var row := Unfilter(f, line[..i], above, n);
      row + [(line[i] + Predict(f, Left(row, i, n), above[i], Left(above, i, n))) % 256]
  }

  /** The rows of an image from its filtered data: each one a filter byte and w bytes. */
  function UnfilterRows(data: seq<byte>, w: nat, n: nat): (rows: Option<seq<seq<byte>>>)
    ensures rows.Some? ==> forall r <- rows.value :: |r| == w
  {
    if data == [] then Some([])
    else if |data| < w + 1 then None
    else
      var start := |data| - (w + 1);
      var before := UnfilterRows(data[..start], w, n);
      if before.None? || data[start] >= 5 then None
      else Some(before.value + [Unfilter(data[start], data[start + 1..], AboveRow(before.value, w), n)])
  }

  /** The row above the next one; above the first row all bytes count as 0. */
  function AboveRow(rows: seq<seq<byte>>, w: nat): (r: seq<byte>)
    requires forall r <- rows :: |r| == w
    ensures |r| == w
  {
    if rows == [] then seq(w, _ => 0) else rows[|rows| - 1]
  }

  // ----- Filtering -----

  function Minus(x: byte, y: byte): byte { (x - y) % 256 }

  /** Position i of a filtered row: the difference from what the filter predicts. */
  function Filtered(f: nat, row: seq<byte>, above: seq<byte>, n: nat, i: nat): byte
    requires f < 5 && i < |row| <= |above|
  {
    Minus(row[i], Predict(f, Left(row, i, n), above[i], Left(above, i, n)))
  }

  /** A whole filtered row. */
  function FilterRow(f: nat, row: seq<byte>, above: seq<byte>, n: nat): (line: seq<byte>)
    requires f < 5 && |row| <= |above|
    ensures |line| == |row|
  {
    seq(|row|, i requires 0 <= i < |row| => Filtered(f, row, above, n, i))
  }

  lemma MinusPlus(x: byte, y: byte)
    ensures (Minus(x, y) + y) % 256 == x
  {
  }

  /** Reconstruction undoes filtering. */
  lemma {:induction false} UnfilterFiltered(f: nat, line: seq<byte>, row: seq<byte>, above: seq<byte>, n: nat)
    requires f < 5 && |line| == |row| <= |above|
    requires forall i | 0 <= i < |line| :: line[i] == Filtered(f, row, above, n, i)
    ensures Unfilter(f, line, above, n) == row
  {
    hide Minus, Predict;
    if line != [] {
      var i := |line| - 1;
      forall j | 0 <= j < i
        ensures line[..i][j] == Filtered(f, row[..i], above, n, j)
      {
        assert Left(row[..i], j, n) == Left(row, j, n);
      }
      UnfilterFiltered(f, line[..i], row[..i], above, n);
      assert Left(row[..i], i, n) == Left(row, i, n);
      MinusPlus(row[i], Predict(f, Left(row, i, n), above[i], Left(above, i, n)));
    }
  }

  // ----- The image in memory -----

  /** Rows of width * n bytes, `stride` bytes apart, written from the top or, flipped, from the bottom. */
  datatype Image = Image(pixels: seq<byte>, stride: nat, width: nat, height: nat, n: nat, flip: bool)
  {
    function RowBytes(): nat { width * n }

    /** A stride of 0 stands for rows without gaps. */
    function Strided(): Image {
      if stride == 0 then this.(stride := RowBytes()) else this
    }

    predicate Valid() {
      width > 0 && n > 0 && (height > 0 ==> stride * (height - 1) + RowBytes() <= |pixels|)
    }

    /** Where row y begins. */
    function Offset(y: nat): nat
      requires y < height
    {
      stride * (if flip then height - 1 - y else y)
    }

    lemma RowFits(y: nat)
      requires Valid() && y < height
      ensures Offset(y) + RowBytes() <= |pixels|
      ensures n <= RowBytes()
    {
      MulMonotone(if flip then height - 1 - y else y, height - 1, stride);
      MulMonotone(1, width, n);
    }

    /** The row above is one stride away, in the direction of writing. */
    lemma RowAbove(y: nat)
      requires Valid() && 0 < y < height
      ensures Offset(y - 1) == if flip then Offset(y) + stride else Offset(y) - stride
    {
      var k := if flip then height - 1 - y else y - 1;
      assert stride * (k + 1) == stride * k + stride;
    }

    function Row(y: nat): (r: seq<byte>)
      requires Valid() && y < height
      ensures |r| == RowBytes()
    {
      RowFits(y);
      pixels[Offset(y)..Offset(y) + RowBytes()]
    }

    function Above(y: nat): (r: seq<byte>)
      requires Valid() && y < height
      ensures |r| == RowBytes()
    {
      if y == 0 then seq(RowBytes(), _ => 0) else Row(y - 1)
    }

    /** The byte above position i of row y, read only by the types that need it. */
    function ByteAbove(kind: nat, y: nat, i: nat): (b: byte)
      requires Valid() && y < height && i < RowBytes() && (y == 0 ==> !ReadsAbove(kind))
      ensures ReadsAbove(kind) ==> b == Above(y)[i]
    {
      if ReadsAbove(kind) then
        RowFits(y);
        RowFits(y - 1);
        RowAbove(y);
        pixels[if flip then Offset(y) + i + stride else Offset(y) + i - stride]
      else 0
    }
  }

  /** The filter type used inside: on the first row, types 5 and 6 stand for 3 and 4 with nothing above. */
  function InnerType(filterType: nat, y: nat): nat
    requires filterType < 5
  {
    if y != 0 then filterType
    else if filterType == 2 then 0 else if filterType == 3 then 5 else if filterType == 4 then 6 else filterType
  }

  /** The filtered byte in the first pixel: nothing is to its left. */
  function FirstPixel(kind: nat, x: byte, b: byte): byte {
    if kind == 2 then Minus(x, b) else if kind == 3 then Minus(x, b / 2) else if kind == 4 then Minus(x, Paeth(0, b, 0))
    else x
  }

  /** The filtered byte behind the first pixel. */
  function LaterPixel(kind: nat, x: byte, a: byte, b: byte, c: byte): byte {
    if kind == 1 then Minus(x, a) else if kind == 2 then Minus(x, b) else if kind == 3 then Minus(x, (a + b) / 2)
    else if kind == 4 then Minus(x, Paeth(a, b, c)) else if kind == 5 then Minus(x, a / 2) else Minus(x, Paeth(a, 0, 0))
  }

  /** Types that read the row above. */
  predicate ReadsAbove(kind: nat) { 2 <= kind <= 4 }

  /** With nothing above the first row, each type computes what the filter type in the file says. */
  lemma SameFilter(f: nat, y: nat, x: byte, a: byte, b: byte, c: byte, b': byte, c': byte)
    requires f < 5 && InnerType(f, y) != 0
    requires y == 0 ==> b == 0 && c == 0
    requires ReadsAbove(InnerType(f, y)) ==> b' == b && c' == c
    ensures LaterPixel(InnerType(f, y), x, a, b', c') == Minus(x, Predict(f, a, b, c))
    ensures FirstPixel(InnerType(f, y), x, b') == Minus(x, Predict(f, 0, b, 0))
  {
    assert Predict(f, 0, 0, 0) == 0;
  }

  lemma FilteredHere(f: nat, y: nat, row: seq<byte>, above: seq<byte>, n: nat, i: nat, b: byte, c: byte)
    requires f < 5 && InnerType(f, y) != 0 && i < |row| <= |above| && n > 0
    requires y == 0 ==> above[i] == 0 && Left(above, i, n) == 0
    requires ReadsAbove(InnerType(f, y)) ==> b == above[i] && c == Left(above, i, n)
    ensures i < n ==> FirstPixel(InnerType(f, y), row[i], b) == Filtered(f, row, above, n, i)
    ensures n <= i ==> LaterPixel(InnerType(f, y), row[i], row[i - n], b, c) == Filtered(f, row, above, n, i)
  {
    hide Minus, Predict, FirstPixel, LaterPixel;
    SameFilter(f, y, row[i], Left(row, i, n), above[i], Left(above, i, n), b, c);
  }

  /** Filters row y into the line buffer: the first pixel in one loop, the others in a second. */
  method EncodePngLine(im: Image, y: nat, filterType: nat, line: array<byte>)
    requires im.Valid() && y < im.height && filterType < 5 && line.Length == im.RowBytes()
    modifies line
    ensures line[..] == FilterRow(filterType, im.Row(y), im.Above(y), im.n)
    ensures Unfilter(filterType, line[..], im.Above(y), im.n) == im.Row(y)
  {
    hide Predict, Paeth, FirstPixel, LaterPixel, Minus, Unfilter, FilterRow, Filtered;
    var kind := InnerType(filterType, y);
    var z, n, w := im.Offset(y), im.n, im.RowBytes();
    ghost var row, above := im.Row(y), im.Above(y);
    im.RowFits(y);
    if kind == 0 {
      CopiedRow(filterType, y, row, above, n);
      forall i | 0 <= i < w {
        line[i] := im.pixels[z + i];
      }
    } else {
      for i := 0 to n
        invariant forall j | 0 <= j < i :: line[j] == Filtered(filterType, row, above, n, j)
      {
        var b := im.ByteAbove(kind, y, i);
        FilteredHere(filterType, y, row, above, n, i, b, 0);
        line[i] := FirstPixel(kind, im.pixels[z + i], b);
      }
      for i := n to w
        invariant forall j | 0 <= j < i :: line[j] == Filtered(filterType, row, above, n, j)
      {
        var b, c := im.ByteAbove(kind, y, i), im.ByteAbove(kind, y, i - n);
        FilteredHere(filterType, y, row, above, n, i, b, c);
        line[i] := LaterPixel(kind, im.pixels[z + i], im.pixels[z + i - n], b, c);
      }
    }
    IsFilterRow(filterType, line[..], row, above, n);
    UnfilterFiltered(filterType, line[..], row, above, n);
  }

  lemma IsFilterRow(f: nat, line: seq<byte>, row: seq<byte>, above: seq<byte>, n: nat)
    requires f < 5 && |line| == |row| <= |above|
    requires forall i | 0 <= i < |line| :: line[i] == Filtered(f, row, above, n, i)
    ensures line == FilterRow(f, row, above, n)
  {
    hide Filtered;
  }

  /** Types None, and Up on the first row, copy the row. */
  lemma CopiedRow(f: nat, y: nat, row: seq<byte>, above: seq<byte>, n: nat)
    requires f < 5 && InnerType(f, y) == 0 && |row| <= |above|
    requires y == 0 ==> forall i | 0 <= i < |above| :: above[i] == 0
    ensures forall i | 0 <= i < |row| :: Filtered(f, row, above, n, i) == row[i]
  {
  }

  // ----- Choosing filters, and the image data -----

  /** The absolute value of a byte taken as signed. */
  function SignedSize(b: byte): nat { if b < 128 then b else 256 - b }

  /** The byte stands for the number of this size, up or down, that is nearest to 0. */
  lemma SignedSizeLeast(b: byte, m: nat)
    ensures (b - SignedSize(b)) % 256 == 0 || (b + SignedSize(b)) % 256 == 0
    ensures (b - m) % 256 == 0 || (b + m) % 256 == 0 ==> SignedSize(b) <= m
  {
  }

  function Cost(line: seq<byte>): (c: nat)
  {
    if line == [] then 0 else Cost(line[..|line| - 1]) + SignedSize(line[|line| - 1])
  }

  const WORST: nat := 0x7fffffff

  /** The cost of row y under filter f. */
  function RowCost(im: Image, y: nat, f: nat): nat
    requires im.Valid() && y < im.height && f < 5
  {
    Cost(FilterRow(f, im.Row(y), im.Above(y), im.n))
  }

  method Estimate(line: array<byte>) returns (est: nat)
    ensures est == Cost(line[..])
  {
    est := 0;
    for i := 0 to line.Length
      invariant est == Cost(line[..i])
    {
      assert line[..i + 1][..i] == line[..i];
      est := est + SignedSize(line[i]);
    }
    assert line[..line.Length] == line[..];
  }

  /** The first filter of the least cost; filters of a cost from 2^31 - 1 on are not taken, but for the first one. */
  ghost predicate IsBest(im: Image, y: nat, best: nat)
    requires im.Valid() && y < im.height && best < 5
  {
    && (forall f | 0 <= f < 5 :: RowCost(im, y, best) <= RowCost(im, y, f) || RowCost(im, y, f) >= 0x7fffffff)
    && (forall f | 0 <= f < best :: RowCost(im, y, best) < RowCost(im, y, f))
  }

  /** Tries all filters and keeps the first one with the least cost. */
  method BestFilter(im: Image, y: nat, line: array<byte>) returns (best: nat)
    requires im.Valid() && y < im.height && line.Length == im.RowBytes()
    modifies line
    ensures best < 5 && IsBest(im, y, best)
  {
    hide Cost, FilterRow, Unfilter;
    best := 0;
    var bestVal := WORST;
    for f := 0 to 5
      invariant best < 5 && bestVal <= WORST
      invariant bestVal < WORST ==> best < f && bestVal == RowCost(im, y, best)
      invariant bestVal == WORST ==> best == 0
      invariant forall g | 0 <= g < f :: bestVal <= RowCost(im, y, g)
      invariant forall g | 0 <= g < best :: bestVal < RowCost(im, y, g)
    {
      EncodePngLine(im, y, f, line);
      var est := Estimate(line);
      if est < bestVal {
        bestVal, best := est, f;
      }
    }
  }

  /** All rows of the image in the order they are written. */
  function Rows(im: Image, k: nat): (rows: seq<seq<byte>>)
    requires im.Valid() && k <= im.height
    ensures |rows| == k && forall r <- rows :: |r| == im.RowBytes()
  {
    seq(k, i requires 0 <= i < k => im.Row(i))
  }

  /**
   Byte i of row y of the image as it is given: rows stand a stride apart, or one directly behind the other if the stride is
   0, and when flipped the last one comes first.
   */
  lemma RowByte(image: Image, y: nat, i: nat) returns (at: nat)
    requires image.Strided().Valid() && y < image.height && i < image.width * image.n
    ensures at == (if image.stride == 0 then image.width * image.n else image.stride)
                  * (if image.flip then image.height - 1 - y else y) + i
    ensures at < |image.pixels| && Rows(image.Strided(), image.height)[y][i] == image.pixels[at]
  {
    var im := image.Strided();
    im.RowFits(y);
    at := im.Offset(y) + i;
    assert Rows(im, im.height)[y] == im.Row(y);
  }

  lemma ReadOne(data: seq<byte>, f: nat, line: seq<byte>, w: nat, n: nat, rows: seq<seq<byte>>)
    requires f < 5 && |line| == w && UnfilterRows(data, w, n) == Some(rows)
    ensures forall r <- rows :: |r| == w
    ensures UnfilterRows(data + [f] + line, w, n) == Some(rows + [Unfilter(f, line, AboveRow(rows, w), n)])
  {
    hide Unfilter;
    var next := data + [f] + line;
    TakeDrop(data, [f] + line);
    Assoc(data, [f], line);
    var start := |next| - (w + 1);
    assert next[..start] == data && next[start] == f;
    assert next[start + 1..] == line;
  }

  lemma NextRowRead(im: Image, y: nat, data: seq<byte>, f: nat, line: seq<byte>)
    requires im.Valid() && y < im.height && f < 5 && |line| == im.RowBytes()
    requires UnfilterRows(data, im.RowBytes(), im.n) == Some(Rows(im, y))
    requires Unfilter(f, line, im.Above(y), im.n) == im.Row(y)
    ensures UnfilterRows(data + [f] + line, im.RowBytes(), im.n) == Some(Rows(im, y + 1))
  {
    hide Unfilter, UnfilterRows, Rows, AboveRow;
    ReadOne(data, f, line, im.RowBytes(), im.n, Rows(im, y));
    RowsMore(im, y);
  }

  lemma RowsMore(im: Image, y: nat)
    requires im.Valid() && y < im.height
    ensures AboveRow(Rows(im, y), im.RowBytes()) == im.Above(y)
    ensures Rows(im, y + 1) == Rows(im, y) + [im.Row(y)]
  {
    hide Image.Row, Image.Valid;
    var before, after := Rows(im, y), Rows(im, y + 1);
    assert |after| == y + 1 && after[y] == im.Row(y);
    forall k | 0 <= k < y
      ensures after[k] == before[k]
    {
    }
    assert after == before + [im.Row(y)];
  }

  /** The first k rows as they are compressed: each behind the byte of its filter. */
  function Lines(im: Image, types: seq<nat>, k: nat): seq<byte>
    requires im.Valid() && k <= im.height && k <= |types| && forall j | 0 <= j < k :: types[j] < 5
  {
    if k == 0 then []
    else Lines(im, types, k - 1) + [types[k - 1]] + FilterRow(types[k - 1], im.Row(k - 1), im.Above(k - 1), im.n)
  }

  lemma {:induction false} MoreTypes(im: Image, types: seq<nat>, f: nat, k: nat)
    requires im.Valid() && k <= im.height && k <= |types| && forall j | 0 <= j < k :: types[j] < 5
    ensures forall j | 0 <= j < k :: (types + [f])[j] < 5
    ensures Lines(im, types + [f], k) == Lines(im, types, k)
  {
    hide FilterRow, Image.Valid, Image.Row, Image.Above;
    if k > 0 {
      MoreTypes(im, types, f, k - 1);
    }
  }

  /** The filter of every row: the forced one, or the best one if none is forced. */
  ghost predicate Chosen(im: Image, force: int, types: seq<nat>)
    requires im.Valid() && |types| <= im.height && forall j | 0 <= j < |types| :: types[j] < 5
  {
    forall j | 0 <= j < |types| :: if 0 <= force < 5 then types[j] == force else IsBest(im, j, types[j])
  }

  /**
   The image data of a PNG file: every row filtered with the forced or the cheapest filter, behind its filter byte, then
   compressed. Decompressing and reconstructing gives back all rows; an image without rows has no decodable data.
   */
  method WriteImageData(image: Image, forceFilter: int, quality: int) returns (zlib: seq<byte>, ghost types: seq<nat>)
    requires image.Strided().Valid()
    ensures |types| == image.height && (forall j | 0 <= j < |types| :: types[j] < 5) && Chosen(image.Strided(), forceFilter, types)
    ensures image.height > 0 ==> Unzlib(zlib) == Some(Lines(image.Strided(), types, image.height))
    ensures image.height == 0 ==> Unzlib(zlib) == None
    ensures image.height > 0 ==>
              && Unzlib(zlib).Some?
              && UnfilterRows(Unzlib(zlib).value, image.RowBytes(), image.n) == Some(Rows(image.Strided(), image.height))
  {
    hide Unzlib, UnfilterRows, Unfilter, FilterRow, RowCost, IsBest, Lines, Chosen, Rows, Image.Valid;
    var im := image.Strided();
    types := [];
    var force := if forceFilter >= 5 then -1 else forceFilter;
    var filt: seq<byte> := [];
    var line := new byte[im.RowBytes()](_ => 0);
    NoRows(im);
    NoLines(im, forceFilter);
    for j := 0 to im.height
      invariant UnfilterRows(filt, im.RowBytes(), im.n) == Some(Rows(im, j))
      invariant filt == [] <==> j == 0
      invariant |types| == j && (forall k | 0 <= k < j :: types[k] < 5) && Chosen(im, forceFilter, types) && filt == Lines(im, types, j)
    {
      var filterType := force;
      if force < 0 {
        filterType := BestFilter(im, j, line);
      }
      EncodePngLine(im, j, filterType, line);
      NextRowRead(im, j, filt, filterType, line[..]);
      NextChosen(im, forceFilter, types, filterType);
      NextLine(im, types, filterType, j);
      types := types + [filterType];
      filt := filt + [filterType] + line[..];
    }
    ghost var fixed, tokens;
    zlib, fixed, tokens := Compress(filt, quality);
  }

  lemma NextChosen(im: Image, force: int, types: seq<nat>, f: nat)
    requires im.Valid() && |types| < im.height && f < 5 && (forall k | 0 <= k < |types| :: types[k] < 5)
    requires Chosen(im, force, types) && if 0 <= force < 5 then f == force else IsBest(im, |types|, f)
    ensures (forall k | 0 <= k < |types| + 1 :: (types + [f])[k] < 5) && Chosen(im, force, types + [f])
  {
    hide IsBest, Image.Valid;
  }

  lemma NextLine(im: Image, types: seq<nat>, f: nat, j: nat)
    requires im.Valid() && j < im.height && j == |types| && f < 5 && forall k | 0 <= k < j :: types[k] < 5
    ensures forall k | 0 <= k < j + 1 :: (types + [f])[k] < 5
    ensures Lines(im, types + [f], j + 1) == Lines(im, types, j) + [f] + FilterRow(f, im.Row(j), im.Above(j), im.n)
  {
    hide FilterRow, Image.Valid, Image.Row, Image.Above;
    MoreTypes(im, types, f, j);
  }

  lemma NoLines(im: Image, force: int)
    requires im.Valid()
    ensures Lines(im, [], 0) == [] && Chosen(im, force, [])
  {
  }

  lemma NoRows(im: Image)
    requires im.Valid()
    ensures UnfilterRows([], im.RowBytes(), im.n) == Some(Rows(im, 0))
  {
  }
}
