/** stbi_zlib_compress: header, one fixed-Huffman block or stored blocks, and the checksum. */
module Zlib {
  import opened Basics
  import opened BitStream
  import opened Inflate
  import opened Tokens
  import opened Lz77
  import Adler32

  // ----- Emitting one symbol, one literal, one match -----

  method Huff(out: seq<byte>, bitbuf: nat, bitcount: nat, n: nat) returns (out': seq<byte>, bitbuf': nat, bitcount': nat)
    requires Settled(bitbuf, bitcount) && n < 288
    ensures Settled(bitbuf', bitcount')
    ensures Written(out', bitbuf', bitcount') == Written(out, bitbuf, bitcount) + CodeBits(n)
  {
    var (code, bits) := Code(n);
    assert bits <= 9;
    var reversed := BitRev(code, bits);
    out', bitbuf', bitcount' := Add(out, bitbuf, bitcount, reversed, bits);
  }

  /** The first row whose successor starts above `value`. */
  method FindRow(start: seq<nat>, value: nat) returns (j: nat)
    requires |start| >= 2 && start[0] <= value < start[|start| - 1]
    ensures j + 1 < |start| && start[j] <= value < start[j + 1]
  {
    j := 0;
    while value > start[j + 1] as int - 1
      invariant j + 1 < |start| && start[j] <= value
      decreases |start| - j
    {
      j := j + 1;
    }
  }

  /** Extra bits, when the row has any. */
  method AddExtra(out: seq<byte>, bitbuf: nat, bitcount: nat, extra: nat, bits: nat)
    returns (out': seq<byte>, bitbuf': nat, bitcount': nat)
    requires Settled(bitbuf, bitcount) && extra < Pow2(bits) && bits <= 13
    ensures Settled(bitbuf', bitcount')
    ensures Written(out', bitbuf', bitcount') == Written(out, bitbuf, bitcount) + Bits(extra, bits)
  {
    out', bitbuf', bitcount' := out, bitbuf, bitcount;
    if bits != 0 {
      out', bitbuf', bitcount' := Add(out, bitbuf, bitcount, extra, bits);
    }
  }

  method EmitLength(out: seq<byte>, bitbuf: nat, bitcount: nat, best: nat)
    returns (out': seq<byte>, bitbuf': nat, bitcount': nat, ghost j: nat, ghost head: seq<bool>, ghost l: seq<bool>)
    requires Settled(bitbuf, bitcount) && 3 <= best <= 258
    ensures Settled(bitbuf', bitcount')
    ensures j <= 28 && IsSymbol(head, 257 + j) && IsLength(l, j, best)
    ensures Written(out', bitbuf', bitcount') == Written(out, bitbuf, bitcount) + head + l
  {
    var row := FindRow(LENGTHC, best);
    LengthFits(row);
    out', bitbuf', bitcount' := Huff(out, bitbuf, bitcount, 257 + row);
    out', bitbuf', bitcount' := AddExtra(out', bitbuf', bitcount', best - LENGTHC[row], LENGTHEB[row]);
    j, head, l := row, CodeBits(257 + row), Bits(best - LENGTHC[row], LENGTHEB[row]);
    CodeDecodes(257 + row);
    LengthDecodes(row, best - LENGTHC[row]);
  }

  method EmitDistance(out: seq<byte>, bitbuf: nat, bitcount: nat, d: nat)
    returns (out': seq<byte>, bitbuf': nat, bitcount': nat, ghost bits: seq<bool>)
    requires Settled(bitbuf, bitcount) && 1 <= d <= 32767
    ensures Settled(bitbuf', bitcount') && IsDistance(bits, d)
    ensures Written(out', bitbuf', bitcount') == Written(out, bitbuf, bitcount) + bits
  {
    var row := FindRow(DISTC, d);
    DistanceFits(row);
    var reversed := BitRev(row, 5);
    out', bitbuf', bitcount' := Add(out, bitbuf, bitcount, reversed, 5);
    out', bitbuf', bitcount' := AddExtra(out', bitbuf', bitcount', d - DISTC[row], DISTEB[row]);
    ghost var extra := Bits(d - DISTC[row], DISTEB[row]);
    Assoc(Written(out, bitbuf, bitcount), MsbBits(row, 5), extra);
    bits := MsbBits(row, 5) + extra;
    DistanceDecodes(row, d - DISTC[row], DISTC[row], DISTEB[row]);
  }

  /** A length/distance pair: length code, extra length bits, distance code, extra distance bits. */
  method EmitMatch(out: seq<byte>, bitbuf: nat, bitcount: nat, best: nat, d: nat)
    returns (out': seq<byte>, bitbuf': nat, bitcount': nat, ghost bits: seq<bool>)
    requires Settled(bitbuf, bitcount) && 3 <= best <= 258 && 1 <= d <= 32767
    ensures Settled(bitbuf', bitcount') && IsItem(bits, Back(best, d))
    ensures Written(out', bitbuf', bitcount') == Written(out, bitbuf, bitcount) + bits
  {
    ghost var j, head, l, tail;
    out', bitbuf', bitcount', j, head, l := EmitLength(out, bitbuf, bitcount, best);
    out', bitbuf', bitcount', tail := EmitDistance(out', bitbuf', bitcount', d);
    bits := head + (l + tail);
    Assoc4(Written(out, bitbuf, bitcount), head, l, tail);
    PairDecodes(head, l, tail, j, best, d);
  }

  method AddZero(out: seq<byte>, bitbuf: nat, bitcount: nat) returns (out': seq<byte>, bitbuf': nat, bitcount': nat)
    requires Settled(bitbuf, bitcount)
    ensures Settled(bitbuf', bitcount')
    ensures Written(out', bitbuf', bitcount') == Written(out, bitbuf, bitcount) + [false]
    ensures bitcount' == if bitcount == 7 then 0 else bitcount + 1
  {
    out', bitbuf', bitcount' := Add(out, bitbuf, bitcount, 0, 1);
    assert Bits(0, 1) == [false];
    assert |Written(out', bitbuf', bitcount')| == 8 * |out| + bitcount + 1;
  }

  /** The zero bits that fill n bits up to a byte boundary. */
  function Padding(n: nat): seq<bool> {
    seq((8 - n % 8) % 8, _ => false)
  }

  /** Pads with zero bits to a byte boundary. */
  method Pad(out: seq<byte>, bitbuf: nat, bitcount: nat) returns (out': seq<byte>)
    requires Settled(bitbuf, bitcount)
    ensures BitsOfBytes(out') == Written(out, bitbuf, bitcount) + Padding(bitcount)
  {
    var buf, count := bitbuf, bitcount;
    out' := out;
    ghost var pad: seq<bool> := [];
    while count > 0
      invariant Settled(buf, count)
      invariant Written(out', buf, count) == Written(out, bitbuf, bitcount) + pad
      invariant |pad| == if count == 0 then |Padding(bitcount)| else count - bitcount
      invariant forall k | 0 <= k < |pad| :: !pad[k]
      decreases if count == 0 then 0 else 8 - count
    {
      out', buf, count := AddZero(out', buf, count);
      Assoc(Written(out, bitbuf, bitcount), pad, [false]);
      pad := pad + [false];
    }
    assert pad == Padding(bitcount);
  }

  // ----- The fixed-Huffman block -----

  /** Every bucket holds at most 2 * quality positions, all before i. */
  predicate Buckets(table: seq<seq<nat>>, quality: nat, i: nat) {
    && |table| == ZHASH
    && forall h | 0 <= h < ZHASH :: |table[h]| <= 2 * quality && forall k | 0 <= k < |table[h]| :: table[h][k] < i
  }

  /** The tokens spell the first i bytes. */
  ghost predicate Spells(ts: seq<Token>, data: seq<byte>, i: nat) {
    i <= |data| && AllApply(ts, []) && ApplyAll(ts, []) == data[..i]
  }

  /** The item that stands for the next n bytes of the data: one of them, or an earlier stretch equal to them. */
  ghost predicate Stands(item: Item, data: seq<byte>, i: nat, n: nat) {
    match item
    case Byte(b) => i < |data| && b == data[i] && n == 1
    case Back(length, distance) => 0 < distance <= i <= |data| && n == length <= Common(data, i - distance, i)
    case EndOfBlock => false
  }

  /** A token for the bytes at i extends what the tokens spell. */
  lemma SpellMore(ts: seq<Token>, data: seq<byte>, i: nat, t: Token, n: nat)
    requires Spells(ts, data, i) && IsItem(t.bits, t.item) && Stands(t.item, data, i, n)
    ensures Spells(ts + [t], data, i + n)
  {
    match t.item {
      case Byte(b) => assert data[..i] + [b] == data[..i + 1];
      case Back(length, distance) => CopyMatch(data, i - distance, i, length);
    }
    Extend(ts, [], t);
  }

  /** The table with position i in its bucket; a full bucket first loses its older half. */
  function Remembered(table: seq<seq<nat>>, h: nat, quality: nat, i: nat): (t: seq<seq<nat>>)
    requires h < |table|
    ensures |t| == |table|
  {
    table[h := (if |table[h]| == 2 * quality then table[h][quality..] else table[h]) + [i]]
  }

  /** Of these places, the ones with bucket h, in the order in which they were met. */
  function InBucket(data: seq<byte>, places: seq<nat>, h: nat): (r: seq<nat>)
    requires forall k | 0 <= k < |places| :: places[k] + 2 < |data|
  {
    if places == [] then []
    else
      var init, last := places[..|places| - 1], places[|places| - 1];
      InBucket(data, init, h) + if BucketOf(data, last) == h then [last] else []
  }

  /** The table after these places were met. */
  function TableAfter(data: seq<byte>, quality: nat, places: seq<nat>): (t: seq<seq<nat>>)
    requires forall k | 0 <= k < |places| :: places[k] + 2 < |data|
    ensures |t| == ZHASH
  {
    if places == [] then EmptyTable()
    else
      var init, last := places[..|places| - 1], places[|places| - 1];
      Remembered(TableAfter(data, quality, init), BucketOf(data, last), quality, last)
  }

  /** The list holds the newest of all, in order: as many as `quality` if there are so many. */
  predicate NewestOf(list: seq<nat>, all: seq<nat>, quality: nat) {
    |list| <= |all| && list == all[|all| - |list|..] && (|list| >= quality || list == all)
  }

  lemma NewestMore(list: seq<nat>, all: seq<nat>, quality: nat, p: nat)
    requires NewestOf(list, all, quality)
    ensures NewestOf((if |list| == 2 * quality then list[quality..] else list) + [p], all + [p], quality)
  {
    var kept := if |list| == 2 * quality then list[quality..] else list;
    assert kept == all[|all| - |kept|..];
    assert (all + [p])[|all| - |kept|..] == all[|all| - |kept|..] + [p];
  }

  /** Every bucket holds the newest places that belong to it, at least `quality` of them if there were so many. */
  lemma {:induction false} TableNewest(data: seq<byte>, quality: nat, places: seq<nat>, h: nat)
    requires h < ZHASH && forall k | 0 <= k < |places| :: places[k] + 2 < |data|
    ensures NewestOf(TableAfter(data, quality, places)[h], InBucket(data, places, h), quality)
  {
    hide NewestOf, BucketOf;
    if places == [] {
      NothingMet(data, quality, h);
    } else {
      var init, last := places[..|places| - 1], places[|places| - 1];
      TableNewest(data, quality, init, h);
      NewestMore(TableAfter(data, quality, init)[h], InBucket(data, init, h), quality, last);
      assert InBucket(data, init, h) + [] == InBucket(data, init, h);
    }
  }

  lemma TableMore(data: seq<byte>, quality: nat, places: seq<nat>, i: nat)
    requires i + 2 < |data| && forall k | 0 <= k < |places| :: places[k] < i
    ensures forall k | 0 <= k < |places + [i]| :: (places + [i])[k] < i + 1
    ensures TableAfter(data, quality, places + [i])
         == Remembered(TableAfter(data, quality, places), BucketOf(data, i), quality, i)
  {
    hide BucketOf, Remembered;
    assert (places + [i])[..|places|] == places;
  }

  lemma NothingMet(data: seq<byte>, quality: nat, h: nat)
    requires h < ZHASH
    ensures NewestOf(TableAfter(data, quality, [])[h], InBucket(data, [], h), quality)
  {
  }

  lemma {:induction false} InBucketSplit(data: seq<byte>, front: seq<nat>, back: seq<nat>, h: nat)
    requires forall k | 0 <= k < |front| :: front[k] + 2 < |data|
    requires forall k | 0 <= k < |back| :: back[k] + 2 < |data|
    ensures InBucket(data, front + back, h) == InBucket(data, front, h) + InBucket(data, back, h)
  {
    hide BucketOf;
    if back == [] {
      assert front + back == front;
    } else {
      var n := |back| - 1;
      InBucketSplit(data, front, back[..n], h);
      assert (front + back)[..|front + back| - 1] == front + back[..n];
    }
  }

  /** Place k has the same three bytes as i and is in the window, and fewer than `quality` later ones share its bucket. */
  predicate IsNewest(data: seq<byte>, quality: nat, places: seq<nat>, k: nat, i: nat)
    requires i + 2 < |data| && (forall j | 0 <= j < |places| :: places[j] < i) && k < |places|
  {
    && data[places[k]..places[k] + 3] == data[i..i + 3] && InWindow(places[k], i, 32768)
    && |InBucket(data, places[k + 1..], BucketOf(data, i))| < quality
  }

  /**
   No match is missed: what is found at i is as long as the match of any place met before that is among the newest of its
   bucket.
   */
  lemma NewestFound(data: seq<byte>, quality: nat, places: seq<nat>, k: nat, i: nat)
    requires i + 2 < |data| && (forall j | 0 <= j < |places| :: places[j] < i)
    requires k < |places| && IsNewest(data, quality, places, k, i)
    ensures Covers(data, TableAfter(data, quality, places)[BucketOf(data, i)], places[k], i)
  {
    hide BucketOf, Longest, MatchLength, InWindow, TableAfter;
    var h, p := BucketOf(data, i), places[k];
    SameBucket(data, p, i);
    InBucketAt(data, places, k, h);
    TableNewest(data, quality, places, h);
    InBucketBelow(data, places, h, i);
    var list, all := TableAfter(data, quality, places)[h], InBucket(data, places, h);
    var at := |InBucket(data, places[..k], h)| - (|all| - |list|);
    assert list[at] == p;
    TripleMatches(data, p, i);
    LongestMatch(data, i, list, |list|, at);
  }

  lemma OneInBucket(data: seq<byte>, p: nat, h: nat)
    requires p + 2 < |data| && BucketOf(data, p) == h
    ensures InBucket(data, [p], h) == [p]
  {
    hide BucketOf;
    assert [p][..0] == [];
  }

  lemma InBucketAt(data: seq<byte>, places: seq<nat>, k: nat, h: nat)
    requires k < |places| && forall j | 0 <= j < |places| :: places[j] + 2 < |data|
    requires BucketOf(data, places[k]) == h
    ensures InBucket(data, places, h) == InBucket(data, places[..k], h) + ([places[k]] + InBucket(data, places[k + 1..], h))
  {
    hide BucketOf, InBucket;
    var one := [places[k]];
    OneInBucket(data, places[k], h);
    InBucketSplit(data, one, places[k + 1..], h);
    InBucketSplit(data, places[..k], one + places[k + 1..], h);
    assert places == places[..k] + (one + places[k + 1..]);
  }

  lemma {:induction false} InBucketBelow(data: seq<byte>, places: seq<nat>, h: nat, i: nat)
    requires forall k | 0 <= k < |places| :: places[k] + 2 < |data| && places[k] < i
    ensures forall k | 0 <= k < |InBucket(data, places, h)| :: InBucket(data, places, h)[k] < i
  {
    hide BucketOf;
    if places != [] {
      InBucketBelow(data, places[..|places| - 1], h, i);
    }
  }

  lemma RememberedBuckets(table: seq<seq<nat>>, h: nat, quality: nat, i: nat)
    requires h < ZHASH && quality > 0 && Buckets(table, quality, i)
    ensures Buckets(Remembered(table, h, quality, i), quality, i + 1)
  {
  }

  method Remember(table: array<seq<nat>>, h: nat, quality: nat, i: nat)
    requires table.Length == ZHASH && h < ZHASH && quality > 0 && Buckets(table[..], quality, i)
    modifies table
    ensures table[..] == Remembered(old(table[..]), h, quality, i) && Buckets(table[..], quality, i + 1)
  {
    hide Buckets;
    RememberedBuckets(table[..], h, quality, i);
    if |table[h]| == 2 * quality {
      table[h] := table[h][quality..];
    }
    table[h] := table[h] + [i];
    assert table[..] == Remembered(old(table[..]), h, quality, i);
  }

  /** What is coded at i: the longest remembered match, unless there is none or the next byte starts a longer one (-1). */
  ghost function Choice(data: seq<byte>, table: seq<seq<nat>>, quality: nat, i: nat): (p: int)
    requires quality > 0 && i + 3 < |data| && Buckets(table, quality, i)
    ensures -1 <= p < i
  {
    BucketBelow(table, quality, i, BucketOf(data, i));
    var hlist := table[BucketOf(data, i)];
    var p := Longest(data, i, hlist, |hlist|);
    var table' := Remembered(table, BucketOf(data, i), quality, i);
    RememberedBuckets(table, BucketOf(data, i), quality, i);
    BucketBelow(table', quality, i + 1, BucketOf(data, i + 1));
    if p >= 0 && BetterNext(data, i, table'[BucketOf(data, i + 1)], MatchLength(data, p, i)) then -1 else p
  }

  /**
   Chooses what to code at i: -1 for a literal, or the position of a match of `best` bytes. A match is given up when the
   next byte starts a longer one. Of the places met before, no match with the newest ones of the bucket is longer.
   */
  method Choose(data: seq<byte>, table: array<seq<nat>>, quality: nat, i: nat, ghost places: seq<nat>)
    returns (best: nat, bestloc: int)
    requires table.Length == ZHASH && quality > 0 && i + 3 < |data| && Buckets(table[..], quality, i)
    requires (forall k | 0 <= k < |places| :: places[k] < i) && table[..] == TableAfter(data, quality, places)
    modifies table
    ensures (forall k | 0 <= k < |places + [i]| :: (places + [i])[k] < i + 1) && table[..] == TableAfter(data, quality, places + [i])
    ensures bestloc >= 0 ==>
              forall k | 0 <= k < |places| && IsNewest(data, quality, places, k, i) :: MatchLength(data, places[k], i) <= best
    ensures table[..] == Remembered(old(table[..]), BucketOf(data, i), quality, i) && Buckets(table[..], quality, i + 1)
    ensures bestloc == Choice(data, old(table[..]), quality, i)
    ensures bestloc == -1 || (0 <= bestloc < i && i - bestloc <= 32767)
    ensures bestloc >= 0 ==> 3 <= best == MatchLength(data, bestloc, i)
  {
    hide Buckets, BucketOf, MatchLength, Longest, BetterNext, Remembered, TableAfter, IsNewest;
    TableMore(data, quality, places, i);
    forall k | 0 <= k < |places| && IsNewest(data, quality, places, k, i)
      ensures Covers(data, table[BucketOf(data, i)], places[k], i)
    {
      NewestFound(data, quality, places, k, i);
    }
    var h := BucketOf(data, i);
    BucketBelow(table[..], quality, i, h);
    best, bestloc := FindLongest(data, i, table[h]);
    Remember(table, h, quality, i);
    if bestloc >= 0 {
      h := BucketOf(data, i + 1);
      BucketBelow(table[..], quality, i + 1, h);
      var better := NextIsBetter(data, i, table[h], best);
      if better {
        bestloc := -1;
      }
    }
  }

  function Literals(data: seq<byte>, i: nat): seq<Item>
    requires i <= |data|
    decreases |data| - i
  {
    if i == |data| then [] else [Byte(data[i])] + Literals(data, i + 1)
  }

  /** The items that code the data from i on: by choice, and the last bytes as literals. */
  ghost function Plan(data: seq<byte>, table: seq<seq<nat>>, quality: nat, i: nat): seq<Item>
    requires quality > 0 && i <= |data| && Buckets(table, quality, i)
    decreases |data| - i
  {
    if i + 3 >= |data| then Literals(data, i)
    else
      var p := Choice(data, table, quality, i);
      RememberedBuckets(table, BucketOf(data, i), quality, i);
      var table' := Remembered(table, BucketOf(data, i), quality, i);
      if p < 0 then
        [Byte(data[i])] + Plan(data, table', quality, i + 1)
      else
        var n := MatchLength(data, p, i);
        LaterBuckets(table', quality, i + 1, i + n);
        if n == 0 then [] else [Back(n, i - p)] + Plan(data, table', quality, i + n)
  }

  lemma LaterBuckets(table: seq<seq<nat>>, quality: nat, i: nat, j: nat)
    requires Buckets(table, quality, i)
    ensures i <= j ==> Buckets(table, quality, j)
  {
  }

  function Items(ts: seq<Token>): (items: seq<Item>)
    ensures |items| == |ts|
  {
    seq(|ts|, k requires 0 <= k < |ts| => ts[k].item)
  }

  lemma ItemsMore(ts: seq<Token>, t: Token, rest: seq<Item>)
    ensures Items(ts + [t]) + rest == Items(ts) + ([t.item] + rest)
  {
  }

  lemma BucketBelow(table: seq<seq<nat>>, quality: nat, i: nat, h: nat)
    requires Buckets(table, quality, i) && h < ZHASH
    ensures forall k | 0 <= k < |table[h]| :: table[h][k] < i
  {
  }

  /** The zlib header and the header of a final fixed-Huffman block. */
  function FixedPrefix(): seq<bool> {
    BitsOfBytes([0x78, 0x5E]) + Bits(1, 1) + Bits(1, 2)
  }

  /** Written so far: the headers and tokens that spell the first i bytes. */
  ghost predicate Coded(out: seq<byte>, bitbuf: nat, bitcount: nat, ts: seq<Token>, data: seq<byte>, i: nat) {
    Settled(bitbuf, bitcount) && Spells(ts, data, i) && Written(out, bitbuf, bitcount) == FixedPrefix() + TokensBits(ts)
  }

  lemma CodedMore(before: seq<bool>, after: seq<bool>, ts: seq<Token>, data: seq<byte>, i: nat, t: Token, n: nat)
    requires Spells(ts, data, i) && IsItem(t.bits, t.item) && Stands(t.item, data, i, n)
    requires before == FixedPrefix() + TokensBits(ts) && after == before + t.bits
    ensures Spells(ts + [t], data, i + n)
    ensures after == FixedPrefix() + TokensBits(ts + [t])
  {
    SpellMore(ts, data, i, t, n);
    TokensBitsAppend(ts, t);
    Assoc(FixedPrefix(), TokensBits(ts), t.bits);
  }

  method Start(ghost data: seq<byte>) returns (out: seq<byte>, bitbuf: nat, bitcount: nat)
    ensures Coded(out, bitbuf, bitcount, [], data, 0)
  {
    out, bitbuf, bitcount := [0x78, 0x5E], 0, 0;
    assert Written(out, bitbuf, bitcount) == BitsOfBytes([0x78, 0x5E]);
    out, bitbuf, bitcount := Add(out, bitbuf, bitcount, 1, 1);
    out, bitbuf, bitcount := Add(out, bitbuf, bitcount, 1, 2);
    assert Written(out, bitbuf, bitcount) == FixedPrefix() + TokensBits([]);
  }

  method CodeLiteral(out: seq<byte>, bitbuf: nat, bitcount: nat, data: seq<byte>, i: nat, ghost ts: seq<Token>)
    returns (out': seq<byte>, bitbuf': nat, bitcount': nat, ghost ts': seq<Token>)
    requires Coded(out, bitbuf, bitcount, ts, data, i) && i < |data|
    ensures Coded(out', bitbuf', bitcount', ts', data, i + 1)
    ensures |ts'| == |ts| + 1 && ts'[..|ts|] == ts && ts'[|ts|].item == Byte(data[i])
  {
    out', bitbuf', bitcount' := Huff(out, bitbuf, bitcount, data[i]);
    ghost var t := Token(CodeBits(data[i]), Byte(data[i]));
    LiteralDecodes(data[i]);
    CodedMore(Written(out, bitbuf, bitcount), Written(out', bitbuf', bitcount'), ts, data, i, t, 1);
    ts' := ts + [t];
  }

  method CodeMatch(out: seq<byte>, bitbuf: nat, bitcount: nat, data: seq<byte>, i: nat, best: nat, d: nat, ghost ts: seq<Token>)
    returns (out': seq<byte>, bitbuf': nat, bitcount': nat, ghost ts': seq<Token>)
    requires Coded(out, bitbuf, bitcount, ts, data, i) && i < |data|
    requires 0 < d <= i && d <= 32767 && 3 <= best == MatchLength(data, i - d, i)
    ensures Coded(out', bitbuf', bitcount', ts', data, i + best)
    ensures |ts'| == |ts| + 1 && ts'[..|ts|] == ts && ts'[|ts|].item == Back(best, d)
  {
    ghost var bits;
    out', bitbuf', bitcount', bits := EmitMatch(out, bitbuf, bitcount, best, d);
    ghost var t := Token(bits, Back(best, d));
    CodedMore(Written(out, bitbuf, bitcount), Written(out', bitbuf', bitcount'), ts, data, i, t, best);
    ts' := ts + [t];
  }

  function EmptyTable(): (t: seq<seq<nat>>)
    ensures |t| == ZHASH
  {
    seq(ZHASH, _ => [])
  }

  lemma EmptyBuckets(quality: nat)
    ensures Buckets(EmptyTable(), quality, 0)
  {
  }

  lemma PlanLiteral(data: seq<byte>, table: seq<seq<nat>>, quality: nat, i: nat, ts: seq<Token>, ts': seq<Token>)
    requires quality > 0 && i + 3 < |data| && Buckets(table, quality, i) && Choice(data, table, quality, i) < 0
    requires |ts'| == |ts| + 1 && ts'[..|ts|] == ts && ts'[|ts|].item == Byte(data[i])
    ensures Buckets(Remembered(table, BucketOf(data, i), quality, i), quality, i + 1)
    ensures Items(ts') + Plan(data, Remembered(table, BucketOf(data, i), quality, i), quality, i + 1)
         == Items(ts) + Plan(data, table, quality, i)
  {
    hide Buckets, Choice, BucketOf, Remembered, Items;
    RememberedBuckets(table, BucketOf(data, i), quality, i);
    assert ts' == ts + [ts'[|ts|]];
    ItemsMore(ts, ts'[|ts|], Plan(data, Remembered(table, BucketOf(data, i), quality, i), quality, i + 1));
  }

  lemma PlanMatch(data: seq<byte>, table: seq<seq<nat>>, quality: nat, i: nat, ts: seq<Token>, ts': seq<Token>, n: nat)
    requires quality > 0 && i + 3 < |data| && Buckets(table, quality, i) && Choice(data, table, quality, i) >= 0
    requires n == MatchLength(data, Choice(data, table, quality, i), i) > 0
    requires |ts'| == |ts| + 1 && ts'[..|ts|] == ts && ts'[|ts|].item == Back(n, i - Choice(data, table, quality, i))
    ensures Buckets(Remembered(table, BucketOf(data, i), quality, i), quality, i + n)
    ensures Items(ts') + Plan(data, Remembered(table, BucketOf(data, i), quality, i), quality, i + n)
         == Items(ts) + Plan(data, table, quality, i)
  {
    hide Buckets, Choice, BucketOf, Remembered, Items, MatchLength;
    RememberedBuckets(table, BucketOf(data, i), quality, i);
    LaterBuckets(Remembered(table, BucketOf(data, i), quality, i), quality, i + 1, i + n);
    assert ts' == ts + [ts'[|ts|]];
    ItemsMore(ts, ts'[|ts|], Plan(data, Remembered(table, BucketOf(data, i), quality, i), quality, i + n));
  }

  lemma PlanEnds(data: seq<byte>, table: seq<seq<nat>>, quality: nat, i: nat)
    requires quality > 0 && i <= |data| <= i + 3 && Buckets(table, quality, i)
    ensures Plan(data, table, quality, i) == Literals(data, i)
  {
  }

  lemma LiteralNext(data: seq<byte>, i: nat, ts: seq<Token>, ts': seq<Token>)
    requires i < |data| && |ts'| == |ts| + 1 && ts'[..|ts|] == ts && ts'[|ts|].item == Byte(data[i])
    ensures Items(ts') + Literals(data, i + 1) == Items(ts) + Literals(data, i)
  {
    hide Items;
    assert ts' == ts + [ts'[|ts|]];
    ItemsMore(ts, ts'[|ts|], Literals(data, i + 1));
  }

  /** A fixed-Huffman stream of these tokens, without its checksum. */
  ghost predicate FixedForm(out: seq<byte>, ts: seq<Token>) {
    var bits := FixedPrefix() + TokensBits(ts) + CodeBits(256);
    BitsOfBytes(out) == bits + Padding(|bits|)
  }

  /**
   Everything up to the padding: greedy matches with one byte of look-ahead, then the last bytes as literals. The tokens
   are those of the plan, they spell the data, and they are what was written.
   */
  method CompressFixed(data: seq<byte>, quality: nat) returns (out: seq<byte>, ghost ts: seq<Token>)
    requires quality > 0
    ensures Spells(ts, data, |data|)
    ensures Buckets(EmptyTable(), quality, 0) && Items(ts) == Plan(data, EmptyTable(), quality, 0)
    ensures FixedForm(out, ts)
  {
    hide Buckets, Choice, Plan, Literals, Items, BucketOf, Remembered, MatchLength, Spells, TokensBits, FixedPrefix, EmptyTable,
      TableAfter, IsNewest;
    var bitbuf, bitcount;
    out, bitbuf, bitcount := Start(data);
    var table := new seq<nat>[ZHASH](_ => []);
    ghost var places: seq<nat> := [];
    TableEmpty(data, quality, table[..]);
    EmptyBuckets(quality);
    var i := 0;
    ts := [];
    NoItems(Plan(data, EmptyTable(), quality, 0));
    while i + 3 < |data|
      invariant Coded(out, bitbuf, bitcount, ts, data, i)
      invariant Buckets(table[..], quality, i) && i <= |data|
      invariant forall k | 0 <= k < |places| :: places[k] < i && places[k] + 2 < |data|
      invariant table[..] == TableAfter(data, quality, places)
      invariant Items(ts) + Plan(data, table[..], quality, i) == Plan(data, EmptyTable(), quality, 0)
    {
      ghost var before, ts0 := table[..], ts;
      var best, bestloc := Choose(data, table, quality, i, places);
      places := places + [i];
      if bestloc >= 0 {
        out, bitbuf, bitcount, ts := CodeMatch(out, bitbuf, bitcount, data, i, best, i - bestloc, ts);
        PlanMatch(data, before, quality, i, ts0, ts, best);
        i := i + best;
      } else {
        out, bitbuf, bitcount, ts := CodeLiteral(out, bitbuf, bitcount, data, i, ts);
        PlanLiteral(data, before, quality, i, ts0, ts);
        i := i + 1;
      }
    }
    PlanEnds(data, table[..], quality, i);
    while i < |data|
      invariant Coded(out, bitbuf, bitcount, ts, data, i) && i <= |data|
      invariant Items(ts) + Literals(data, i) == Plan(data, EmptyTable(), quality, 0)
    {
      ghost var ts0 := ts;
      out, bitbuf, bitcount, ts := CodeLiteral(out, bitbuf, bitcount, data, i, ts);
      LiteralNext(data, i, ts0, ts);
      i := i + 1;
    }
    NoLiterals(data, Items(ts));
    out, bitbuf, bitcount := Huff(out, bitbuf, bitcount, 256);
    SameRemainder(out, bitbuf, bitcount);
    out := Pad(out, bitbuf, bitcount);
  }

  lemma TableEmpty(data: seq<byte>, quality: nat, table: seq<seq<nat>>)
    requires |table| == ZHASH && forall h | 0 <= h < ZHASH :: table[h] == []
    ensures table == EmptyTable() == TableAfter(data, quality, [])
  {
  }

  lemma NoItems(plan: seq<Item>)
    ensures Items([]) + plan == plan
  {
  }

  lemma NoLiterals(data: seq<byte>, items: seq<Item>)
    ensures items + Literals(data, |data|) == items
  {
  }

  lemma SameRemainder(out: seq<byte>, bitbuf: nat, bitcount: nat)
    requires Settled(bitbuf, bitcount)
    ensures Padding(|Written(out, bitbuf, bitcount)|) == Padding(bitcount)
  {
    hide Padding;
    assert |Written(out, bitbuf, bitcount)| == 8 * |out| + bitcount;
    PaddingRepeats(|out|, bitcount);
  }

  lemma PaddingRepeats(n: nat, k: nat)
    requires k < 8
    ensures Padding(8 * n + k) == Padding(k)
  {
    assert (8 * n + k) % 8 == k;
  }

  /** A multiple of eight bits plus fewer than eight: aligning drops just those. */
  lemma Align(bits: seq<bool>, pad: seq<bool>, tail: seq<bool>)
    requires |pad| < 8 && |tail| % 8 == 0 && bits == pad + tail
    ensures bits[|bits| % 8..] == tail
  {
  }

  lemma HeaderBits()
    ensures FixedPrefix() == Bits(0x78, 8) + (Bits(0x5E, 8) + [true, true, false])
  {
    assert BitsOfBytes([0x78, 0x5E]) == Bits(0x78, 8) + BitsOfBytes([0x5E]);
    assert BitsOfBytes([0x5E]) == Bits(0x5E, 8) + BitsOfBytes([]);
    assert Bits(1, 1) == [true] && Bits(1, 2) == [true, false];
  }

  /** Behind the two header bytes come the three header bits of the block and its body. */
  lemma SplitHeader(out: seq<byte>, body: seq<bool>)
    requires BitsOfBytes(out) == FixedPrefix() + body
    ensures |out| >= 2 && out[0] == 0x78 && out[1] == 0x5E && BitsOfBytes(out[2..]) == [true, true, false] + body
  {
    HeaderBits();
    Regroup(Bits(0x78, 8), Bits(0x5E, 8), [true, true, false], body);
    HeadByte(out, 0x78, Bits(0x5E, 8) + ([true, true, false] + body));
    HeadByte(out[1..], 0x5E, [true, true, false] + body);
    assert out[1..][1..] == out[2..];
  }

  lemma FinalFixed(body: seq<bool>)
    ensures InflateBlocks([true, true, false] + body, []) == InflateFixed(body, [])
  {
    var bits := [true, true, false] + body;
    assert bits[3..] == body;
    assert bits[1..][..2] == [true, false];
    assert BitsValue([true, false]) == 1 + 2 * BitsValue([false]);
  }

  lemma HeaderAccepted()
    ensures ZlibHeader(0x78, 0x5E)
  {
  }

  lemma UnzlibHeader(z: seq<byte>, r: Inflated)
    requires |z| >= 2 && ZlibHeader(z[0], z[1])
    requires InflateBlocks(BitsOfBytes(z[2..]), []) == Some(r) && TrailerMatches(r)
    ensures Unzlib(z) == Some(r.out)
  {
  }

  /** The decoder reads a fixed-Huffman stream of tokens back as what they spell. */
  lemma FixedRoundTrip(out: seq<byte>, ts: seq<Token>, pad: seq<bool>, data: seq<byte>)
    requires Spells(ts, data, |data|) && |pad| < 8
    requires BitsOfBytes(out) == FixedPrefix() + TokensBits(ts) + CodeBits(256) + pad
    ensures Unzlib(out + AdlerBytes(data)) == Some(data)
  {
    var trailer := BitsOfBytes(AdlerBytes(data));
    var body := TokensBits(ts) + CodeBits(256) + pad;
    Assoc4(FixedPrefix(), TokensBits(ts), CodeBits(256), pad);
    Assoc(TokensBits(ts), CodeBits(256), pad);
    SplitHeader(out, body);
    BitsOfBytesConcat(out[2..], AdlerBytes(data));
    Assoc([true, true, false], body, trailer);
    assert (out + AdlerBytes(data))[2..] == out[2..] + AdlerBytes(data);
    FinalFixed(body + trailer);
    Assoc(TokensBits(ts) + CodeBits(256), pad, trailer);
    EndDecodes();
    DecodeBlock(ts, CodeBits(256), pad + trailer, []);
    Align(pad + trailer, pad, trailer);
    assert data[..|data|] == data;
    HeaderAccepted();
    UnzlibHeader(out + AdlerBytes(data), Inflated(pad + trailer, data));
  }

  // ----- Stored blocks -----

  /** One stored block: final flag, length, complement of the length, bytes. */
  function StoredBlock(final: bool, bytes: seq<byte>): (z: seq<byte>)
    requires |bytes| <= 32767
    ensures |z| == |bytes| + 5
  {
    [if final then 1 else 0, |bytes| % 256, |bytes| / 256, 255 - |bytes| % 256, 255 - |bytes| / 256] + bytes
  }

  function BlockLength(left: nat): (n: nat)
    requires left > 0
    ensures 0 < n <= 32767 && n <= left
  {
    if left > 32767 then 32767 else left
  }

  /** The bytes from j on in blocks of at most 32767. */
  function StoredFrom(data: seq<byte>, j: nat): (z: seq<byte>)
    requires j <= |data|
    decreases |data| - j
  {
    if j == |data| then []
    else
      var n := BlockLength(|data| - j);
      StoredBlock(|data| - j == n, data[j..j + n]) + StoredFrom(data, j + n)
  }

  /** The size of n bytes in stored blocks. */
  function StoredSize(n: nat): nat {
    n + (n + 32766) / 32767 * 5
  }

  lemma {:induction false} StoredLength(data: seq<byte>, j: nat)
    requires j <= |data|
    ensures |StoredFrom(data, j)| == StoredSize(|data| - j)
    decreases |data| - j
  {
    if j < |data| {
      var n := BlockLength(|data| - j);
      StoredLength(data, j + n);
    }
  }

  lemma FlagBits(final: bool)
    ensures Bits(if final then 1 else 0, 8) == [final, false, false] + Bits(0, 5)
  {
    var f := if final then 1 else 0;
    assert Bits(f, 8) == [final] + Bits(0, 7) && Bits(0, 7) == [false] + Bits(0, 6) && Bits(0, 6) == [false] + Bits(0, 5);
  }

  /** Two bytes, low byte first, are the sixteen bits of their number. */
  lemma WordBits(v: nat)
    requires v < 65536
    ensures Bits(v % 256, 8) + Bits(v / 256, 8) == Bits(v, 16)
    ensures BitsValue(Bits(v, 16)) == v
  {
    Pow2Values();
    Shl8(v / 256);
    BitsConcat(v % 256, 8, v / 256, 8);
    BitsRoundTrip(v, 16);
  }

  lemma ConsBits(b: byte, rest: seq<byte>)
    ensures BitsOfBytes([b] + rest) == Bits(b, 8) + BitsOfBytes(rest)
  {
    assert ([b] + rest)[1..] == rest;
  }

  /** Two bytes in front of others, as bits. */
  lemma WordAhead(v: nat, rest: seq<byte>)
    requires v < 65536
    ensures BitsOfBytes([v % 256, v / 256] + rest) == Bits(v, 16) + BitsOfBytes(rest)
  {
    var lo: byte, hi: byte := v % 256, v / 256;
    assert [lo, hi] + rest == [lo] + ([hi] + rest);
    ConsBits(lo, [hi] + rest);
    ConsBits(hi, rest);
    WordBits(v);
    Assoc(Bits(lo, 8), Bits(hi, 8), BitsOfBytes(rest));
  }

  /** Flag, length, complement, bytes: the parts of a stored block behind its flag as words. */
  lemma StoredParts(final: bool, bytes: seq<byte>)
    requires |bytes| <= 32767
    ensures var n, m := |bytes|, 0xFFFF - |bytes|;
            StoredBlock(final, bytes) == [if final then 1 else 0] + ([n % 256, n / 256] + ([m % 256, m / 256] + bytes))
  {
    var n, m := |bytes|, 0xFFFF - |bytes|;
    assert m % 256 == 255 - n % 256 && m / 256 == 255 - n / 256;
  }

  /** What a stored block looks like behind its three header bits. */
  function StoredBody(bytes: seq<byte>, tail: seq<bool>): seq<bool>
    requires |bytes| <= 32767
  {
    Bits(0, 5) + (Bits(|bytes|, 16) + (Bits(0xFFFF - |bytes|, 16) + (BitsOfBytes(bytes) + tail)))
  }

  lemma StoredBits(final: bool, bytes: seq<byte>, tail: seq<bool>)
    requires |bytes| <= 32767
    ensures BitsOfBytes(StoredBlock(final, bytes)) + tail == [final, false, false] + StoredBody(bytes, tail)
  {
    var n, m := |bytes|, 0xFFFF - |bytes|;
    var words := [m % 256, m / 256] + bytes;
    StoredParts(final, bytes);
    ConsBits(if final then 1 else 0, [n % 256, n / 256] + words);
    WordAhead(n, words);
    WordAhead(m, bytes);
    FlagBits(final);
    RegroupStored([final, false, false], Bits(0, 5), Bits(n, 16), Bits(m, 16), BitsOfBytes(bytes), tail);
  }

  lemma RegroupStored(a: seq<bool>, b: seq<bool>, c: seq<bool>, d: seq<bool>, e: seq<bool>, f: seq<bool>)
    ensures a + b + (c + (d + e)) + f == a + (b + (c + (d + (e + f))))
  {
  }

  /** The decoder reads length and bytes of one stored block and goes on at the bit after it. */
  lemma DecodeLengthPrefixed(l: seq<bool>, m: seq<bool>, bytes: seq<byte>, tail: seq<bool>, out: seq<byte>)
    requires |l| == 16 && |m| == 16
    requires BitsValue(l) == |bytes| && BitsValue(m) == 0xFFFF - |bytes|
    ensures InflateLengthPrefixed(l + (m + (BitsOfBytes(bytes) + tail)), out) == Some(Inflated(tail, out + bytes))
  {
    var raw := BitsOfBytes(bytes);
    StoredSlices(l, m, raw + tail);
    TakeDrop(raw, tail);
    BytesRoundTrip(bytes);
  }

  lemma StoredSlices(l: seq<bool>, m: seq<bool>, body: seq<bool>)
    requires |l| == 16 && |m| == 16
    ensures var aligned := l + (m + body);
            aligned[..16] == l && aligned[16..][..16] == m && aligned[32..] == body
  {
  }

  lemma AlignStored(pad: seq<bool>, fields: seq<bool>, out: seq<byte>)
    requires |pad| < 8 && |fields| % 8 == 0
    ensures InflateStored(pad + fields, out) == InflateLengthPrefixed(fields, out)
  {
    Align(pad + fields, pad, fields);
  }

  lemma Multiple8(a: nat, b: nat, c: nat)
    requires a == 32 + (8 * b + c) && c % 8 == 0
    ensures a % 8 == 0
  {
  }

  lemma DecodeStored(bytes: seq<byte>, tail: seq<bool>, out: seq<byte>)
    requires |bytes| <= 32767 && |tail| % 8 == 0
    ensures InflateStored(StoredBody(bytes, tail), out) == Some(Inflated(tail, out + bytes))
  {
    WordBits(|bytes|);
    WordBits(0xFFFF - |bytes|);
    var fields := Bits(|bytes|, 16) + (Bits(0xFFFF - |bytes|, 16) + (BitsOfBytes(bytes) + tail));
    Multiple8(|fields|, |bytes|, |tail|);
    AlignStored(Bits(0, 5), fields, out);
    DecodeLengthPrefixed(Bits(|bytes|, 16), Bits(0xFFFF - |bytes|, 16), bytes, tail, out);
  }

  lemma DecodeStoredBlock(final: bool, bytes: seq<byte>, tail: seq<bool>, out: seq<byte>)
    requires |bytes| <= 32767 && |tail| % 8 == 0
    ensures InflateBlocks(BitsOfBytes(StoredBlock(final, bytes)) + tail, out) ==
            if final then Some(Inflated(tail, out + bytes)) else InflateBlocks(tail, out + bytes)
  {
    StoredBits(final, bytes, tail);
    DecodeStored(bytes, tail, out);
    StoredKind(final, StoredBody(bytes, tail), out);
  }

  lemma StoredKind(final: bool, body: seq<bool>, out: seq<byte>)
    ensures InflateBlocks([final, false, false] + body, out) ==
            var block := InflateStored(body, out);
            if block.None? || final then block else InflateBlocks(block.value.rest, block.value.out)
  {
    var bits := [final, false, false] + body;
    assert bits[3..] == body;
    assert bits[1..][..2] == [false, false];
    assert BitsValue([false, false]) == 2 * BitsValue([false]);
  }

  lemma TwoParts(a: seq<byte>, b: seq<byte>, tail: seq<bool>)
    requires |tail| % 8 == 0
    ensures BitsOfBytes(a + b) + tail == BitsOfBytes(a) + (BitsOfBytes(b) + tail)
    ensures |BitsOfBytes(b) + tail| % 8 == 0
  {
    BitsOfBytesConcat(a, b);
    Assoc(BitsOfBytes(a), BitsOfBytes(b), tail);
  }

  /** The first stored block of several. */
  lemma DecodeStoredHead(final: bool, bytes: seq<byte>, more: seq<byte>, tail: seq<bool>, out: seq<byte>)
    requires |bytes| <= 32767 && |tail| % 8 == 0
    ensures InflateBlocks(BitsOfBytes(StoredBlock(final, bytes) + more) + tail, out) ==
            if final then Some(Inflated(BitsOfBytes(more) + tail, out + bytes))
            else InflateBlocks(BitsOfBytes(more) + tail, out + bytes)
  {
    TwoParts(StoredBlock(final, bytes), more, tail);
    DecodeStoredBlock(final, bytes, BitsOfBytes(more) + tail, out);
  }

  lemma NextSlice(data: seq<byte>, j: nat, n: nat)
    requires j + n <= |data|
    ensures data[..j] + data[j..j + n] == data[..j + n]
    ensures j + n == |data| ==> data[..j + n] == data
  {
  }

  lemma DecodeStoredMore(z: seq<byte>, bytes: seq<byte>, more: seq<byte>, tail: seq<bool>, out: seq<byte>, r: Option<Inflated>)
    requires |bytes| <= 32767 && |tail| % 8 == 0 && z == StoredBlock(false, bytes) + more
    requires InflateBlocks(BitsOfBytes(more) + tail, out + bytes) == r
    ensures InflateBlocks(BitsOfBytes(z) + tail, out) == r
  {
    DecodeStoredHead(false, bytes, more, tail, out);
  }

  lemma DecodeStoredLast(data: seq<byte>, j: nat, tail: seq<bool>)
    requires j < |data| && BlockLength(|data| - j) == |data| - j && |tail| % 8 == 0
    ensures InflateBlocks(BitsOfBytes(StoredFrom(data, j)) + tail, data[..j]) == Some(Inflated(tail, data))
  {
    hide InflateBlocks, BitsOfBytes, StoredBlock;
    var bytes := data[j..j + (|data| - j)];
    NextSlice(data, j, |data| - j);
    assert StoredFrom(data, j) == StoredBlock(true, bytes) + [];
    DecodeStoredHead(true, bytes, [], tail, data[..j]);
    assert BitsOfBytes([]) + tail == tail;
  }

  /** Stored blocks from j on decode to the rest of the text, and the decoder stops behind the last of them. */
  lemma {:induction false} DecodeStoredFrom(data: seq<byte>, j: nat, tail: seq<bool>)
    requires j < |data| && |tail| % 8 == 0
    ensures InflateBlocks(BitsOfBytes(StoredFrom(data, j)) + tail, data[..j]) == Some(Inflated(tail, data))
    decreases |data| - j
  {
    var n := BlockLength(|data| - j);
    if |data| - j == n {
      DecodeStoredLast(data, j, tail);
    } else {
      var bytes, more := data[j..j + n], StoredFrom(data, j + n);
      assert StoredFrom(data, j) == StoredBlock(false, bytes) + more;
      NextSlice(data, j, n);
      DecodeStoredFrom(data, j + n, tail);
      DecodeStoredMore(StoredFrom(data, j), bytes, more, tail, data[..j], Some(Inflated(tail, data)));
    }
  }

  /** The decoder reads a stream of stored blocks back, unless there is nothing to store and so no block. */
  lemma StoredRoundTrip(data: seq<byte>)
    ensures Unzlib([0x78, 0x5E] + StoredFrom(data, 0) + AdlerBytes(data)) == if data == [] then None else Some(data)
  {
    var z := [0x78, 0x5E] + StoredFrom(data, 0) + AdlerBytes(data);
    var trailer := BitsOfBytes(AdlerBytes(data));
    assert z[2..] == StoredFrom(data, 0) + AdlerBytes(data);
    HeaderAccepted();
    if data == [] {
      assert z[2..] == AdlerBytes([]) == [0, 0, 0, 1];
      NoBlock();
    } else {
      BitsOfBytesConcat(StoredFrom(data, 0), AdlerBytes(data));
      DecodeStoredFrom(data, 0, trailer);
      assert data[..0] == [];
      UnzlibHeader(z, Inflated(trailer, data));
    }
  }

  /** The checksum of the empty string is no DEFLATE stream: it starts like a stored block without a length. */
  lemma NoBlock()
    ensures InflateBlocks(BitsOfBytes([0, 0, 0, 1]), []) == None
  {
    var bits := BitsOfBytes([0, 0, 0, 1]);
    ConsBits(0, [0, 0, 1]);
    FlagBits(false);
    assert [0] + [0, 0, 1] == [0, 0, 0, 1];
    var body := Bits(0, 5) + BitsOfBytes([0, 0, 1]);
    Assoc([false, false, false], Bits(0, 5), BitsOfBytes([0, 0, 1]));
    StoredKind(false, body, []);
  }

  // ----- The compressor -----

  method StoreBlocks(data: seq<byte>) returns (out: seq<byte>)
    ensures out == [0x78, 0x5E] + StoredFrom(data, 0)
  {
    out := [0x78, 0x5E];
    var j := 0;
    while j < |data|
      invariant j <= |data| && out + StoredFrom(data, j) == [0x78, 0x5E] + StoredFrom(data, 0)
    {
      var blocklen := |data| - j;
      if blocklen > 32767 {
        blocklen := 32767;
      }
      ghost var before := out;
      out := out + [if |data| - j == blocklen then 1 else 0];
      out := out + [blocklen % 256, blocklen / 256];
      out := out + [255 - blocklen % 256, 255 - blocklen / 256];
      out := out + data[j..j + blocklen];
      assert out == before + StoredBlock(|data| - j == blocklen, data[j..j + blocklen]);
      Assoc(before, StoredBlock(|data| - j == blocklen, data[j..j + blocklen]), StoredFrom(data, j + blocklen));
      j := j + blocklen;
    }
  }

  /**
   Compresses `data`. The standard decoder returns exactly the data unless it is empty, for which no block is written.
   `fixed` codes the items of the plan; the stored form takes its place just when it is shorter, and then fits where the
   longer one was.
   */
  method Compress(data: seq<byte>, quality: int) returns (out: seq<byte>, ghost fixed: seq<byte>, ghost ts: seq<Token>)
    ensures Unzlib(out) == (if data == [] then None else Some(data))
    ensures |out| <= 2 + StoredSize(|data|) + 4
    ensures var q := if quality < 5 then 5 else quality;
      Buckets(EmptyTable(), q, 0) && Items(ts) == Plan(data, EmptyTable(), q, 0)
    ensures FixedForm(fixed, ts)
    ensures out == (if |fixed| > 2 + StoredSize(|data|) then [0x78, 0x5E] + StoredFrom(data, 0) else fixed) + AdlerBytes(data)
  {
    hide Buckets, Plan, Items, EmptyTable, Unzlib, StoredFrom, TokensBits;
    out, ts := CompressFixed(data, if quality < 5 then 5 else quality);
    fixed := out;
    FixedRoundTrip(out, ts, Padding(|FixedPrefix() + TokensBits(ts) + CodeBits(256)|), data);
    if |out| > 2 + StoredSize(|data|) {
      ghost var abandoned := |out|;
      StoredLength(data, 0);
      out := StoreBlocks(data);
      StoredRoundTrip(data);
      assert |out| < abandoned;
    }
    var s1, s2 := Adler32.Adler(data);
    assert AdlerBytes(data) == [s2 / 256, s2 % 256, s1 / 256, s1 % 256];
    out := out + [s2 / 256, s2 % 256, s1 / 256, s1 % 256];
  }
}
