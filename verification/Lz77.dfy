/** The match search of the compressor: a hash of three bytes selects a short list of earlier positions. */
module Lz77 {
  import opened Basics
  import opened Inflate

  /** Number of hash buckets. */
  const ZHASH: nat := 16384

  /** The 32-bit mixing function; only its low bits are used. */
  function ZHash(a: byte, b: byte, c: byte): bv32 {
    var h0 := (a as bv32) + ((b as bv32) << 8) + ((c as bv32) << 16);
    var h1 := h0 ^ (h0 << 3);
    var h2 := h1 + (h1 >> 5);
    var h3 := h2 ^ (h2 << 4);
    var h4 := h3 + (h3 >> 17);
    var h5 := h4 ^ (h4 << 25);
    h5 + (h5 >> 6)
  }

  /** The bucket of the three bytes at i. Any choice below the table size would do for the round trip. */
  function BucketOf(data: seq<byte>, i: nat): (h: nat)
    requires i + 2 < |data|
    ensures h < ZHASH
  {
    var masked := ZHash(data[i], data[i + 1], data[i + 2]) & 0x3FFF;
    assert masked <= 0x3FFF;
    masked as nat
  }

  /** Places with the same three bytes have the same bucket. */
  lemma SameBucket(data: seq<byte>, p: nat, i: nat)
    requires p + 2 < |data| && i + 2 < |data| && data[p..p + 3] == data[i..i + 3]
    ensures BucketOf(data, p) == BucketOf(data, i)
  {
    hide ZHash;
    var s, t := data[p..p + 3], data[i..i + 3];
    assert s[0] == data[p] && s[1] == data[p + 1] && s[2] == data[p + 2];
    assert t[0] == data[i] && t[1] == data[i + 1] && t[2] == data[i + 2];
  }

  /** How many bytes from p on equal those from q on. */
  function Common(data: seq<byte>, p: nat, q: nat): (n: nat)
    requires p < q <= |data|
    ensures q + n <= |data|
    decreases |data| - q
  {
    if q < |data| && data[p] == data[q] then 1 + Common(data, p + 1, q + 1) else 0
  }

  /** The length a match of p at q can have: DEFLATE stops at 258. */
  function MatchLength(data: seq<byte>, p: nat, q: nat): (n: nat)
    requires p < q <= |data|
    ensures n <= 258 && q + n <= |data|
  {
    if Common(data, p, q) > 258 then 258 else Common(data, p, q)
  }

  /** Copying any prefix of a match from its distance reproduces the text, even where source and target overlap. */
  lemma {:induction false} CopyMatch(data: seq<byte>, p: nat, q: nat, n: nat)
    requires p < q <= |data| && n <= Common(data, p, q)
    ensures Copy(data[..q], q - p, n) == data[..q + n]
    decreases n
  {
    if n > 0 {
      assert data[..q] + [data[..q][p]] == data[..q + 1];
      CopyMatch(data, p + 1, q + 1, n - 1);
    }
  }

  /** Counts equal bytes, at most `limit` and at most 258. */
  method CountM(data: seq<byte>, p: nat, q: nat, limit: nat) returns (i: nat)
    requires p < q && q + limit == |data|
    ensures i == MatchLength(data, p, q)
  {
    i := 0;
    while i < limit && i < 258
      invariant i <= limit && i <= 258
      invariant Common(data, p, q) == i + Common(data, p + i, q + i)
    {
      if data[p + i] != data[q + i] {
        break;
      }
      i := i + 1;
    }
  }

  /** A list entry that lies inside the window of `reach` bytes before i. */
  predicate InWindow(p: nat, i: nat, reach: nat) {
    p > i as int - reach
  }

  /** No entry from e on is a window match of `best` bytes. */
  ghost predicate NoneFrom(data: seq<byte>, i: nat, hlist: seq<nat>, e: nat, best: nat)
    requires i <= |data| && forall k | 0 <= k < |hlist| :: hlist[k] < i
  {
    forall k | e <= k < |hlist| :: InWindow(hlist[k], i, 32768) ==> MatchLength(data, hlist[k], i) < best
  }

  /** The last of the longest matches of at least three bytes among the first n entries, or -1. */
  function Longest(data: seq<byte>, i: nat, hlist: seq<nat>, n: nat): (p: int)
    requires i < |data| && n <= |hlist| && forall k | 0 <= k < |hlist| :: hlist[k] < i
    ensures -1 <= p < i
  {
    if n == 0 then -1
    else
      var p := Longest(data, i, hlist, n - 1);
      var best := if p < 0 then 3 else MatchLength(data, p, i);
      if InWindow(hlist[n - 1], i, 32768) && MatchLength(data, hlist[n - 1], i) >= best then hlist[n - 1] else p
  }

  /** What is found in the list is as long as the match at p. */
  ghost predicate Covers(data: seq<byte>, hlist: seq<nat>, p: nat, i: nat)
    requires p < i < |data|
  {
    && (forall k | 0 <= k < |hlist| :: hlist[k] < i)
    && Longest(data, i, hlist, |hlist|) >= 0
    && MatchLength(data, Longest(data, i, hlist, |hlist|), i) >= MatchLength(data, p, i)
  }

  /** It is as long as any other one in the window. */
  lemma {:induction false} LongestMatch(data: seq<byte>, i: nat, hlist: seq<nat>, n: nat, k: nat)
    requires i < |data| && k < n <= |hlist| && forall k | 0 <= k < |hlist| :: hlist[k] < i
    requires InWindow(hlist[k], i, 32768) && MatchLength(data, hlist[k], i) >= 3
    ensures Longest(data, i, hlist, n) >= 0
    ensures MatchLength(data, Longest(data, i, hlist, n), i) >= MatchLength(data, hlist[k], i)
  {
    hide MatchLength, InWindow;
    if k < n - 1 {
      LongestMatch(data, i, hlist, n - 1, k);
    }
  }

  lemma TripleMatches(data: seq<byte>, p: nat, i: nat)
    requires p < i && i + 2 < |data| && data[p..p + 3] == data[i..i + 3]
    ensures MatchLength(data, p, i) >= 3
  {
    var s, t := data[p..p + 3], data[i..i + 3];
    assert s[0] == data[p] && s[1] == data[p + 1] && s[2] == data[p + 2];
    assert t[0] == data[i] && t[1] == data[i + 1] && t[2] == data[i + 2];
    assert Common(data, p + 2, i + 2) >= 1;
    assert Common(data, p + 1, i + 1) >= 2;
  }

  /**
   The longest match at i among the listed positions, or -1 when none is three bytes long. Of equally long ones the
   last listed is taken.
   */
  method FindLongest(data: seq<byte>, i: nat, hlist: seq<nat>) returns (best: nat, bestloc: int)
    requires i < |data| && forall k | 0 <= k < |hlist| :: hlist[k] < i
    ensures bestloc == Longest(data, i, hlist, |hlist|)
    ensures bestloc == -1 ==> forall k | 0 <= k < |hlist| :: InWindow(hlist[k], i, 32768) ==> MatchLength(data, hlist[k], i) < 3
    ensures bestloc >= 0 ==>
              && bestloc < i && InWindow(bestloc, i, 32768)
              && 3 <= best == MatchLength(data, bestloc, i)
              && (exists e | 0 <= e < |hlist| :: hlist[e] == bestloc && NoneFrom(data, i, hlist, e + 1, best))
              && forall k | 0 <= k < |hlist| :: InWindow(hlist[k], i, 32768) ==> MatchLength(data, hlist[k], i) <= best
  {
    best, bestloc := 3, -1;
    ghost var at: nat := 0;
    for j := 0 to |hlist|
      invariant bestloc == Longest(data, i, hlist, j)
      invariant bestloc == -1 ==> best == 3 && forall k | 0 <= k < j :: InWindow(hlist[k], i, 32768) ==> MatchLength(data, hlist[k], i) < 3
      invariant bestloc >= 0 ==>
                  && at < j && hlist[at] == bestloc && InWindow(bestloc, i, 32768)
                  && NoneFrom(data, i, hlist[..j], at + 1, best)
                  && 3 <= best == MatchLength(data, bestloc, i)
                  && forall k | 0 <= k < j :: InWindow(hlist[k], i, 32768) ==> MatchLength(data, hlist[k], i) <= best
    {
      if hlist[j] > i as int - 32768 {
        var d := CountM(data, hlist[j], i, |data| - i);
        if d >= best {
          best := d;
          bestloc := hlist[j];
          at := j;
        }
      }
    }
    assert hlist[..|hlist|] == hlist;
  }

  /** Some listed position starts a longer match at the next byte. */
  ghost predicate BetterNext(data: seq<byte>, i: nat, hlist: seq<nat>, best: nat)
    requires i + 1 < |data| && forall k | 0 <= k < |hlist| :: hlist[k] < i + 1
  {
    exists k | 0 <= k < |hlist| :: InWindow(hlist[k], i, 32767) && MatchLength(data, hlist[k], i + 1) > best
  }

  /** Lazy matching: whether the next byte starts a strictly longer match than `best`. */
  method NextIsBetter(data: seq<byte>, i: nat, hlist: seq<nat>, best: nat) returns (better: bool)
    requires i + 1 < |data| && forall k | 0 <= k < |hlist| :: hlist[k] < i + 1
    ensures better <==> BetterNext(data, i, hlist, best)
  {
    better := false;
    for j := 0 to |hlist|
      invariant !better
      invariant forall k | 0 <= k < j :: InWindow(hlist[k], i, 32767) ==> MatchLength(data, hlist[k], i + 1) <= best
    {
      if hlist[j] > i as int - 32767 {
        var e := CountM(data, hlist[j], i + 1, |data| - i - 1);
        if e > best {
          better := true;
          break;
        }
      }
    }
  }
}
