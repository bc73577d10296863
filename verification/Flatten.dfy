/** Flattening a struct descriptor into one table of records, with its strings gathered in segments. */
module Flatten {
  import opened Basics
  import opened DataTypes
  import opened StructLayout

  const TWO_16: int := 65536

  /** Offsets are 16-bit values; dimensions, alignments and member counts are bytes. */
  datatype Record = Record(kind: MemberType, arrayDimension: nat, alignment: nat, memberCount: nat, structOffset: nat,
                           arrayInfoOffset: nat, nameOffset: nat, descOffset: nat, customData: nat,
                           dataOffset: nat, dataSize: nat)

  /** The record table, the two string segments, and the segment of the array dimensions, as bytes. */
  datatype Flat = Flat(records: seq<Record>, names: string, descs: string, arrays: string)

  // ----- What the code computes -----

  /** A string is stored with a terminating zero; its offset is kept one too large, so that 0 can stand for no string. */
  function TextOffset(segment: string, text: string): nat {
    if text == "" then 0 else (|segment| % TWO_16 + 1) % TWO_16
  }

  function AddText(segment: string, text: string): string {
    if text == "" then segment else segment + (text + ['\0'])
  }

  /** A dimension as four bytes, lowest first. */
  function WordBytes(d: nat): (b: string)
    ensures |b| == 4
  {
    [(d % 256) as char, (d / 256 % 256) as char, (d / 65536 % 256) as char, (d / 16777216 % 256) as char]
  }

  function DimBytes(dims: seq<nat>): (b: string)
    ensures |b| == 4 * |dims|
  {
    if dims == [] then "" else WordBytes(dims[0]) + DimBytes(dims[1..])
  }

  /** The dimensions that are stored: as many as a byte counts. */
  function Stored(dims: seq<nat>): seq<nat> { dims[..|dims| % 256] }

  function ArrayOffset(segment: string, dims: seq<nat>): nat {
    if dims == [] then 0 else (|segment| % TWO_16 + 1) % TWO_16
  }

  function AddArray(segment: string, dims: seq<nat>): string {
    if dims == [] then segment else segment + DimBytes(Stored(dims))
  }

  function MakeRecord(e: Element, base: nat, f: Flat): Record {
    Record(e.kind, |e.arrays| % 256, e.alignment % 256, if e.sub.Some? then |e.sub.value.members| % 256 else 0, 0,
           ArrayOffset(f.arrays, e.arrays),
           TextOffset(f.names, e.name), TextOffset(f.descs, e.desc), e.customData, base + e.offset, e.size)
  }

  function AddMember(e: Element, base: nat, f: Flat): (f': Flat)
    ensures |f'.records| == |f.records| + 1
  {
    Flat(f.records + [MakeRecord(e, base, f)], AddText(f.names, e.name), AddText(f.descs, e.desc), AddArray(f.arrays, e.arrays))
  }

  function AddMembers(ms: seq<Element>, base: nat, f: Flat): (f': Flat)
    ensures |f'.records| == |f.records| + |ms|
  {
    if ms == [] then f else AddMember(ms[|ms| - 1], base, AddMembers(ms[..|ms| - 1], base, f))
  }

  /** Record j starts its struct's block at the end of the table. */
  function PointToEnd(f: Flat, j: nat): (f': Flat)
    requires j < |f.records|
    ensures |f'.records| == |f.records|
  {
    f.(records := f.records[j := f.records[j].(structOffset := |f.records| % TWO_16)])
  }

  /** The structs among members k and above, each as a block behind all that came before. */
  function AddStructs(s: Struct, base: nat, first: nat, k: nat, f: Flat): (f': Flat)
    requires k <= |s.members| && first + |s.members| <= |f.records|
    ensures |f'.records| >= |f.records|
    decreases s, 0, |s.members| - k
  {
    if k == |s.members| then f
    else if s.members[k].sub.None? then AddStructs(s, base, first, k + 1, f)
    else
      var block := FlattenStruct(s.members[k].sub.value, base + s.members[k].offset, PointToEnd(f, first + k));
      AddStructs(s, base, first, k + 1, block)
  }

  /** The members of a struct as one block, then its structs. */
  function FlattenStruct(s: Struct, base: nat, f: Flat): (f': Flat)
    ensures |f'.records| >= |f.records|
    decreases s, 1
  {
    AddStructs(s, base, |f.records|, 0, AddMembers(s.members, base, f))
  }

  // ----- The number of records -----

  /** get_all_member_count: a member counts, and so do the members of its struct. */
  function CountFrom(s: Struct, k: nat): (n: nat)
    requires k <= |s.members|
    decreases s, |s.members| - k
  {
    if k == |s.members| then 0
    else 1 + (if s.members[k].sub.Some? then CountFrom(s.members[k].sub.value, 0) else 0) + CountFrom(s, k + 1)
  }

  function Count(s: Struct): nat { CountFrom(s, 0) }

  lemma {:induction false} CountMembers(s: Struct, k: nat)
    requires k <= |s.members|
    ensures CountFrom(s, k) >= |s.members| - k
    decreases |s.members| - k
  {
    if k < |s.members| {
      CountMembers(s, k + 1);
    }
  }

  lemma {:induction false} CountSplit(s: Struct, i: nat)
    requires i <= |s.members|
    ensures Count(s) >= CountFrom(s, i) + i
  {
    if i > 0 {
      CountSplit(s, i - 1);
    }
  }

  /** A struct adds as many records as it has members at all depths. */
  lemma {:induction false} RecordCount(s: Struct, base: nat, f: Flat)
    ensures |FlattenStruct(s, base, f).records| == |f.records| + Count(s)
    decreases s, 1
  {
    StructsCount(s, base, |f.records|, 0, AddMembers(s.members, base, f));
  }

  lemma {:induction false} StructsCount(s: Struct, base: nat, first: nat, k: nat, f: Flat)
    requires k <= |s.members| && first + |s.members| <= |f.records|
    ensures |AddStructs(s, base, first, k, f).records| == |f.records| + CountFrom(s, k) - (|s.members| - k)
    decreases s, 0, |s.members| - k
  {
    hide FlattenStruct, AddMembers;
    if k < |s.members| {
      if s.members[k].sub.None? {
        StructsCount(s, base, first, k + 1, f);
      } else {
        var sub, at, pointed := s.members[k].sub.value, base + s.members[k].offset, PointToEnd(f, first + k);
        RecordCount(sub, at, pointed);
        StructsCount(s, base, first, k + 1, FlattenStruct(sub, at, pointed));
      }
    }
  }

  // ----- What the table means -----

  /** The text stands in the segment one below its offset, up to a zero; while the segment fits 16-bit offsets. */
  predicate TextAt(segment: string, offset: nat, text: string) {
    if text == "" then offset == 0
    else |segment| < TWO_16 ==>
      1 <= offset && offset + |text| <= |segment|
      && segment[offset - 1..offset - 1 + |text|] == text && segment[offset - 1 + |text|] == '\0'
  }

  /** The dimensions stand in the segment one below their offset; while the segment fits 16-bit offsets. */
  predicate ArrayAt(segment: string, offset: nat, dims: seq<nat>) {
    if dims == [] then offset == 0
    else |segment| < TWO_16 - 1 ==>
      var b := DimBytes(Stored(dims));
      1 <= offset && offset - 1 + |b| <= |segment| && segment[offset - 1..offset - 1 + |b|] == b
  }

  /** Record r describes member e of a struct at base. */
  predicate Matches(r: Record, e: Element, base: nat, f: Flat) {
    && r.kind == e.kind && r.dataOffset == base + e.offset && r.dataSize == e.size && r.customData == e.customData
    && r.arrayDimension == |e.arrays| % 256 && r.alignment == e.alignment % 256
    && r.memberCount == (if e.sub.Some? then |e.sub.value.members| % 256 else 0)
    && TextAt(f.names, r.nameOffset, e.name) && TextAt(f.descs, r.descOffset, e.desc)
    && ArrayAt(f.arrays, r.arrayInfoOffset, e.arrays)
  }

  /** Where the block of member i's struct begins: behind the members, and the blocks of the members before it. */
  function BlockStart(s: Struct, first: nat, i: nat): (b: nat)
    requires i <= |s.members|
    ensures b >= first + |s.members|
  {
    CountSplit(s, i);
    first + |s.members| + (Count(s) - CountFrom(s, i) - i)
  }

  /** Member i of the block at first is described, and its struct is a block strictly behind this one. */
  predicate LaidAt(f: Flat, first: nat, s: Struct, base: nat, i: nat)
    requires i < |s.members| && first + |s.members| <= |f.records|
    decreases s, 0
  {
    var r, e := f.records[first + i], s.members[i];
    && Matches(r, e, base, f)
    && if e.sub.None? then r.structOffset == 0
       else
         r.structOffset == BlockStart(s, first, i) && Laid(f, r.structOffset, e.sub.value, base + e.offset)
  }

  /** The block at first describes the struct, at all depths. */
  predicate Laid(f: Flat, first: nat, s: Struct, base: nat)
    decreases s, 1
  {
    first + |s.members| <= |f.records| && forall i | 0 <= i < |s.members| :: LaidAt(f, first, s, base, i)
  }

  /** f' keeps the records of f from lo on, and its segments only grew. */
  predicate Extends(f: Flat, f': Flat, lo: nat) {
    && |f.records| <= |f'.records| && (forall j | lo <= j < |f.records| :: f'.records[j] == f.records[j])
    && f.names <= f'.names && f.descs <= f'.descs && f.arrays <= f'.arrays
  }

  lemma TextKept(segment: string, segment': string, offset: nat, text: string)
    requires TextAt(segment, offset, text) && segment <= segment'
    ensures TextAt(segment', offset, text)
  {
    if text != "" && |segment'| < TWO_16 {
      assert segment'[..|segment|] == segment;
      assert segment'[offset - 1..offset - 1 + |text|] == segment[offset - 1..offset - 1 + |text|];
    }
  }

  lemma ArrayKept(segment: string, segment': string, offset: nat, dims: seq<nat>)
    requires ArrayAt(segment, offset, dims) && segment <= segment'
    ensures ArrayAt(segment', offset, dims)
  {
    hide DimBytes, Stored;
    var n := |DimBytes(Stored(dims))|;
    if dims != [] && |segment'| < TWO_16 - 1 {
      assert segment'[..|segment|] == segment;
      assert segment'[offset - 1..offset - 1 + n] == segment[offset - 1..offset - 1 + n];
    }
  }

  lemma MatchesKept(r: Record, e: Element, base: nat, f: Flat, f': Flat, lo: nat)
    requires Matches(r, e, base, f) && Extends(f, f', lo)
    ensures Matches(r, e, base, f')
  {
    hide TextAt, ArrayAt;
    TextKept(f.names, f'.names, r.nameOffset, e.name);
    TextKept(f.descs, f'.descs, r.descOffset, e.desc);
    ArrayKept(f.arrays, f'.arrays, r.arrayInfoOffset, e.arrays);
  }

  /** A block depends only on the records from its start on. */
  lemma {:induction false} LaidKept(f: Flat, f': Flat, first: nat, s: Struct, base: nat)
    requires Laid(f, first, s, base) && Extends(f, f', first)
    ensures Laid(f', first, s, base)
    decreases s
  {
    hide Matches;
    forall i | 0 <= i < |s.members|
      ensures LaidAt(f', first, s, base, i)
    {
      assert LaidAt(f, first, s, base, i);
      LaidAtKept(f, f', first, s, base, i);
    }
  }

  lemma {:induction false} LaidAtKept(f: Flat, f': Flat, first: nat, s: Struct, base: nat, i: nat)
    requires i < |s.members| && first + |s.members| <= |f.records|
    requires LaidAt(f, first, s, base, i) && Extends(f, f', first + |s.members|)
    requires first + i < |f'.records| && f'.records[first + i] == f.records[first + i]
    ensures LaidAt(f', first, s, base, i)
    decreases s, 0
  {
    hide Matches, Laid;
    var r, e := f.records[first + i], s.members[i];
    MatchesKept(r, e, base, f, f', first + |s.members|);
    if e.sub.Some? {
      LaidKept(f, f', r.structOffset, e.sub.value, base + e.offset);
    }
  }

  // ----- One block -----

  /** A text just added is found at its offset. */
  lemma TextAdded(segment: string, text: string)
    ensures TextAt(AddText(segment, text), TextOffset(segment, text), text) && segment <= AddText(segment, text)
  {
    if text != "" {
      var more := AddText(segment, text);
      assert more[|segment|..|segment| + |text|] == text;
    }
  }

  /** Dimensions just added are found at their offset. */
  lemma ArrayAdded(segment: string, dims: seq<nat>)
    ensures ArrayAt(AddArray(segment, dims), ArrayOffset(segment, dims), dims) && segment <= AddArray(segment, dims)
  {
    hide DimBytes, Stored;
    if dims != [] {
      var b, more := DimBytes(Stored(dims)), AddArray(segment, dims);
      assert more[|segment|..|segment| + |b|] == b;
    }
  }

  lemma MemberAdded(e: Element, base: nat, f: Flat)
    ensures var f' := AddMember(e, base, f);
      Matches(f'.records[|f.records|], e, base, f') && f'.records[|f.records|].structOffset == 0 && Extends(f, f', 0)
  {
    hide TextAt, AddText, TextOffset, ArrayAt, AddArray, ArrayOffset;
    TextAdded(f.names, e.name);
    TextAdded(f.descs, e.desc);
    ArrayAdded(f.arrays, e.arrays);
  }

  /** Member i of a block is described, and its record points nowhere. */
  predicate FreshAt(f: Flat, first: nat, ms: seq<Element>, base: nat, i: nat)
    requires i < |ms| && first + |ms| <= |f.records|
  {
    Matches(f.records[first + i], ms[i], base, f) && f.records[first + i].structOffset == 0
  }

  predicate Fresh(f: Flat, first: nat, ms: seq<Element>, base: nat) {
    first + |ms| <= |f.records| && forall i | 0 <= i < |ms| :: FreshAt(f, first, ms, base, i)
  }

  lemma {:induction false} MembersAdded(ms: seq<Element>, base: nat, f: Flat)
    ensures Fresh(AddMembers(ms, base, f), |f.records|, ms, base) && Extends(f, AddMembers(ms, base, f), 0)
  {
    hide Matches, AddMember;
    if ms != [] {
      var init, last := ms[..|ms| - 1], ms[|ms| - 1];
      MembersAdded(init, base, f);
      var mid := AddMembers(init, base, f);
      MemberAdded(last, base, mid);
      var end := AddMember(last, base, mid);
      forall i | 0 <= i < |ms|
        ensures FreshAt(end, |f.records|, ms, base, i)
      {
        if i < |init| {
          assert init[i] == ms[i];
          assert FreshAt(mid, |f.records|, init, base, i);
          MatchesKept(mid.records[|f.records| + i], ms[i], base, mid, end, 0);
        }
      }
    }
  }

  // ----- All blocks -----

  /** No struct at any depth has more members, and no member more dimensions, than a byte can count. */
  predicate Small(s: Struct)
    decreases s
  {
    |s.members| < 256 && forall i | 0 <= i < |s.members| ::
      |s.members[i].arrays| < 256 && (s.members[i].sub.Some? ==> Small(s.members[i].sub.value))
  }

  /** Members below k are described with their structs; the others point nowhere yet. */
  predicate LaidUpTo(f: Flat, first: nat, s: Struct, base: nat, k: nat) {
    && first + |s.members| <= |f.records|
    && (forall i | 0 <= i < |s.members| && i < k :: LaidAt(f, first, s, base, i))
    && (forall i | k <= i < |s.members| :: FreshAt(f, first, s.members, base, i))
  }

  lemma {:induction false} StructsLaid(s: Struct, base: nat, first: nat, k: nat, f: Flat)
    requires k <= |s.members| && LaidUpTo(f, first, s, base, k) && |f.records| == BlockStart(s, first, k)
    requires |f.records| + CountFrom(s, k) - (|s.members| - k) < TWO_16
    ensures Laid(AddStructs(s, base, first, k, f), first, s, base)
    ensures Extends(f, AddStructs(s, base, first, k, f), first + |s.members|)
    ensures forall j | 0 <= j < first :: AddStructs(s, base, first, k, f).records[j] == f.records[j]
    decreases s, 0, |s.members| - k
  {
    hide Matches, LaidAt, PointToEnd, FreshAt, FlattenStruct, AddMembers;
    if k < |s.members| {
      var e := s.members[k];
      if e.sub.None? {
        LaidLeaf(s, base, first, k, f);
        StructsLaid(s, base, first, k + 1, f);
      } else {
        var pointed := PointToEnd(f, first + k);
        CountMembers(s, k + 1);
        RecordCount(e.sub.value, base + e.offset, pointed);
        FlattenLaid(e.sub.value, base + e.offset, pointed);
        var next := FlattenStruct(e.sub.value, base + e.offset, pointed);
        LaidNext(s, base, first, k, f, next);
        StructsLaid(s, base, first, k + 1, next);
        ExtendsPast(s, base, first, k, f, next, AddStructs(s, base, first, k + 1, next));
      }
    }
  }

  lemma LaidLeaf(s: Struct, base: nat, first: nat, k: nat, f: Flat)
    requires k < |s.members| && LaidUpTo(f, first, s, base, k) && s.members[k].sub.None?
    ensures LaidUpTo(f, first, s, base, k + 1)
  {
    hide Matches;
    assert FreshAt(f, first, s.members, base, k);
  }

  /** When record first + k points to the block that was added, members up to k are laid out. */
  lemma LaidNext(s: Struct, base: nat, first: nat, k: nat, f: Flat, next: Flat)
    requires k < |s.members| && LaidUpTo(f, first, s, base, k) && s.members[k].sub.Some? && |f.records| < TWO_16
    requires |f.records| == BlockStart(s, first, k)
    requires Extends(PointToEnd(f, first + k), next, 0)
    requires Laid(next, |f.records|, s.members[k].sub.value, base + s.members[k].offset)
    ensures LaidUpTo(next, first, s, base, k + 1)
  {
    hide Matches, Laid;
    var pointed := PointToEnd(f, first + k);
    assert Extends(f, next, first + |s.members|) by {
      forall j | first + |s.members| <= j < |f.records|
        ensures next.records[j] == f.records[j]
      {
        assert next.records[j] == pointed.records[j];
      }
    }
    forall i | 0 <= i < |s.members| && i < k + 1
      ensures LaidAt(next, first, s, base, i)
    {
      assert next.records[first + i] == pointed.records[first + i];
      if i < k {
        LaidAtKept(f, next, first, s, base, i);
      } else {
        var r := f.records[first + k];
        assert FreshAt(f, first, s.members, base, k);
        assert pointed.records[first + k] == r.(structOffset := |f.records| % TWO_16);
        PointMatches(r, |f.records| % TWO_16, s.members[k], base, f);
        MatchesKept(r.(structOffset := |f.records| % TWO_16), s.members[k], base, f, next, first + |s.members|);
      }
    }
    forall i | k + 1 <= i < |s.members|
      ensures FreshAt(next, first, s.members, base, i)
    {
      assert FreshAt(f, first, s.members, base, i);
      assert next.records[first + i] == pointed.records[first + i] == f.records[first + i];
      MatchesKept(f.records[first + i], s.members[i], base, f, next, first + |s.members|);
    }
  }

  lemma PointMatches(r: Record, offset: nat, e: Element, base: nat, f: Flat)
    requires Matches(r, e, base, f)
    ensures Matches(r.(structOffset := offset), e, base, f)
  {
    hide TextAt;
  }

  lemma ExtendsPast(s: Struct, base: nat, first: nat, k: nat, f: Flat, next: Flat, end: Flat)
    requires k < |s.members| && first + |s.members| <= |f.records|
    requires Extends(PointToEnd(f, first + k), next, 0) && Extends(next, end, first + |s.members|)
    ensures Extends(f, end, first + |s.members|)
    ensures forall j | 0 <= j < first :: next.records[j] == f.records[j]
  {
    var pointed := PointToEnd(f, first + k);
    forall j | 0 <= j < |f.records| && j != first + k
      ensures next.records[j] == f.records[j]
    {
      assert next.records[j] == pointed.records[j];
    }
  }

  /**
   Flattening lays the struct out at the end of the table: one block per struct, reached by strictly forward offsets,
   with nothing before it changed.
   */
  lemma {:induction false} FlattenLaid(s: Struct, base: nat, f: Flat)
    requires |f.records| + Count(s) < TWO_16
    ensures Laid(FlattenStruct(s, base, f), |f.records|, s, base) && Extends(f, FlattenStruct(s, base, f), 0)
    decreases s, 1
  {
    hide Matches, LaidAt, Laid, FreshAt;
    var mid := AddMembers(s.members, base, f);
    MembersAdded(s.members, base, f);
    StructsLaid(s, base, |f.records|, 0, mid);
    var end := FlattenStruct(s, base, f);
    forall j | 0 <= j < |f.records|
      ensures end.records[j] == f.records[j]
    {
      assert mid.records[j] == f.records[j];
    }
  }

  // ----- Every record -----

  /** How many records the blocks of members k and above have. */
  function BlocksFrom(s: Struct, k: nat): nat
    requires k <= |s.members|
  {
    CountMembers(s, k);
    CountFrom(s, k) - (|s.members| - k)
  }

  /** A member, and where its struct lies in memory. */
  datatype Placed = Placed(element: Element, base: nat)

  /** Member number n in the order of the table: a struct's own members, then block by block. */
  function Nth(s: Struct, base: nat, n: nat): Placed
    requires n < Count(s)
    decreases s, 1
  {
    if n < |s.members| then Placed(s.members[n], base) else NthFrom(s, base, 0, n - |s.members|)
  }

  function NthFrom(s: Struct, base: nat, k: nat, m: nat): Placed
    requires k <= |s.members| && m < BlocksFrom(s, k)
    decreases s, 0, |s.members| - k
  {
    CountMembers(s, k);
    var e := s.members[k];
    if e.sub.None? then NthFrom(s, base, k + 1, m)
    else if m < Count(e.sub.value) then Nth(e.sub.value, base + e.offset, m)
    else NthFrom(s, base, k + 1, m - Count(e.sub.value))
  }

  /** A record tells all of a member but where its struct lies in the table. */
  predicate Tells(r: Record, p: Placed, f: Flat) {
    Matches(r, p.element, p.base, f)
  }

  /** Record number n of a laid out struct tells of member number n, at its absolute address. */
  lemma {:induction false} RecordNth(f: Flat, first: nat, s: Struct, base: nat, n: nat)
    requires Laid(f, first, s, base) && n < Count(s)
    ensures first + n < |f.records| && Tells(f.records[first + n], Nth(s, base, n), f)
    decreases s, 1
  {
    hide Matches;
    if n < |s.members| {
      assert LaidAt(f, first, s, base, n);
    } else {
      RecordNthFrom(f, first, s, base, 0, n - |s.members|);
    }
  }

  lemma {:induction false} RecordNthFrom(f: Flat, first: nat, s: Struct, base: nat, k: nat, m: nat)
    requires Laid(f, first, s, base) && k <= |s.members| && m < BlocksFrom(s, k)
    ensures BlockStart(s, first, k) + m < |f.records|
    ensures Tells(f.records[BlockStart(s, first, k) + m], NthFrom(s, base, k, m), f)
    decreases s, 0, |s.members| - k
  {
    hide Matches, Tells;
    CountMembers(s, k);
    var sub := s.members[k].sub;
    assert LaidAt(f, first, s, base, k);
    if sub.None? {
      RecordNthFrom(f, first, s, base, k + 1, m);
    } else if m < Count(sub.value) {
      RecordNth(f, BlockStart(s, first, k), sub.value, base + s.members[k].offset, m);
    } else {
      RecordNthFrom(f, first, s, base, k + 1, m - Count(sub.value));
    }
  }

  // ----- The code -----

  /** A struct member whose block is still to come: its record, the member, and where its data begins. */
  datatype Pending = Pending(index: nat, element: Element, offset: nat)

  predicate PendingOk(s: Struct, first: nat, list: seq<Pending>) {
    forall t | 0 <= t < |list| ::
      first <= list[t].index < first + |s.members|
      && list[t].element == s.members[list[t].index - first] && list[t].element.sub.Some?
  }

  function PendingFrom(s: Struct, base: nat, first: nat, k: nat): (list: seq<Pending>)
    requires k <= |s.members|
    ensures PendingOk(s, first, list)
    decreases |s.members| - k
  {
    if k == |s.members| then []
    else if s.members[k].sub.None? then PendingFrom(s, base, first, k + 1)
    else [Pending(first + k, s.members[k], base + s.members[k].offset)] + PendingFrom(s, base, first, k + 1)
  }

  function AddPending(s: Struct, first: nat, list: seq<Pending>, f: Flat): (f': Flat)
    requires PendingOk(s, first, list) && first + |s.members| <= |f.records|
  {
    if list == [] then f
    else
      var p := list[0];
      AddPending(s, first, list[1..], FlattenStruct(p.element.sub.value, p.offset, PointToEnd(f, p.index)))
  }

  lemma {:induction false} AddPendingIs(s: Struct, base: nat, first: nat, k: nat, f: Flat)
    requires k <= |s.members| && first + |s.members| <= |f.records|
    ensures AddPending(s, first, PendingFrom(s, base, first, k), f) == AddStructs(s, base, first, k, f)
    decreases |s.members| - k
  {
    hide FlattenStruct, PointToEnd;
    if k < |s.members| {
      if s.members[k].sub.None? {
        AddPendingIs(s, base, first, k + 1, f);
      } else {
        var p := Pending(first + k, s.members[k], base + s.members[k].offset);
        assert ([p] + PendingFrom(s, base, first, k + 1))[1..] == PendingFrom(s, base, first, k + 1);
        AddPendingIs(s, base, first, k + 1, FlattenStruct(p.element.sub.value, p.offset, PointToEnd(f, p.index)));
      }
    }
  }

  lemma MembersStep(ms: seq<Element>, base: nat, f: Flat, i: nat)
    requires i < |ms|
    ensures AddMembers(ms[..i + 1], base, f) == AddMember(ms[i], base, AddMembers(ms[..i], base, f))
  {
    assert ms[..i + 1][..i] == ms[..i];
  }

  /** One more member goes from what is to come into the list. */
  lemma PendingStep(s: Struct, base: nat, first: nat, i: nat, list: seq<Pending>)
    requires i < |s.members| && PendingOk(s, first, list)
    ensures var e := s.members[i];
      var list' := if e.sub.Some? then list + [Pending(first + i, e, base + e.offset)] else list;
      PendingOk(s, first, list') && list' + PendingFrom(s, base, first, i + 1) == list + PendingFrom(s, base, first, i)
  {
    hide PendingOk;
    var e := s.members[i];
    if e.sub.Some? {
      PendingOkMore(s, first, list, i, base);
      Assoc(list, [Pending(first + i, e, base + e.offset)], PendingFrom(s, base, first, i + 1));
    }
  }

  lemma PendingOkMore(s: Struct, first: nat, list: seq<Pending>, i: nat, base: nat)
    requires PendingOk(s, first, list) && i < |s.members| && s.members[i].sub.Some?
    ensures PendingOk(s, first, list + [Pending(first + i, s.members[i], base + s.members[i].offset)])
  {
  }

  lemma PendingDone(s: Struct, base: nat, f: Flat, list: seq<Pending>)
    requires list + PendingFrom(s, base, |f.records|, |s.members|) == PendingFrom(s, base, |f.records|, 0)
    ensures PendingOk(s, |f.records|, list)
    ensures AddPending(s, |f.records|, list, AddMembers(s.members, base, f)) == FlattenStruct(s, base, f)
  {
    hide AddMembers;
    assert list + [] == list;
    AddPendingIs(s, base, |f.records|, 0, AddMembers(s.members, base, f));
  }

  lemma PendingFirst(s: Struct, first: nat, list: seq<Pending>, t: nat, f: Flat)
    requires PendingOk(s, first, list) && first + |s.members| <= |f.records| && t < |list|
    ensures PendingOk(s, first, list[t..]) && PendingOk(s, first, list[t + 1..])
    ensures var p := list[t];
      && p.index < |f.records| && p.element.sub.Some?
      && AddPending(s, first, list[t..], f)
      == AddPending(s, first, list[t + 1..], FlattenStruct(p.element.sub.value, p.offset, PointToEnd(f, p.index)))
  {
    hide FlattenStruct, PointToEnd;
    assert list[t..][0] == list[t] && list[t..][1..] == list[t + 1..];
  }

  lemma PendingSmaller(s: Struct, first: nat, list: seq<Pending>, t: nat)
    requires PendingOk(s, first, list) && t < |list|
    ensures list[t].element.sub.Some? && (s decreases to list[t].element.sub.value)
  {
    assert list[t].element == s.members[list[t].index - first];
  }

  /** First all members, remembering those of struct type; then, for each of those, its block. */
  method VisitDataPacketDesc(head: Struct, base: nat, f: Flat) returns (f': Flat, memberCount: nat)
    ensures f' == FlattenStruct(head, base, f) && memberCount == |head.members| % TWO_16
    decreases head
  {
    hide AddMember, PointToEnd, FlattenStruct, AddMembers, PendingOk, PendingFrom, AddPending;
    f', memberCount := f, 0;
    var list: seq<Pending> := [];
    ghost var first := |f.records|;
    NothingPending(head, base, f, first);
    for i := 0 to |head.members|
      invariant f' == AddMembers(head.members[..i], base, f) && memberCount == i % TWO_16
      invariant PendingOk(head, first, list)
      invariant list + PendingFrom(head, base, first, i) == PendingFrom(head, base, first, 0)
    {
      var e := head.members[i];
      MembersStep(head.members, base, f, i);
      PendingStep(head, base, first, i, list);
      f' := AddMember(e, base, f');
      if e.sub.Some? {
        list := list + [Pending(|f'.records| - 1, e, base + e.offset)];
      }
      memberCount := (memberCount + 1) % TWO_16;
    }
    assert head.members[..|head.members|] == head.members;
    PendingDone(head, base, f, list);
    assert list[0..] == list;
    for t := 0 to |list|
      invariant first + |head.members| <= |f'.records| && PendingOk(head, first, list[t..])
      invariant AddPending(head, first, list[t..], f') == FlattenStruct(head, base, f)
    {
      PendingFirst(head, first, list, t, f');
      PendingSmaller(head, first, list, t);
      var p := list[t];
      var n;
      f', n := VisitDataPacketDesc(p.element.sub.value, p.offset, PointToEnd(f', p.index));
    }
    PendingEmpty(head, first, list[|list|..], f');
  }

  lemma NothingPending(s: Struct, base: nat, f: Flat, first: nat)
    ensures AddMembers(s.members[..0], base, f) == f && PendingOk(s, first, [])
  {
  }

  lemma PendingEmpty(s: Struct, first: nat, list: seq<Pending>, f: Flat)
    requires list == [] && PendingOk(s, first, list) && first + |s.members| <= |f.records|
    ensures AddPending(s, first, list, f) == f
  {
  }

  // ----- Reading the table: visit -----

  /** for_each_read: the members in order, each followed by those of its struct, with their depth. */
  function ForEachRead(s: Struct, k: nat, depth: nat): (r: seq<(Element, nat)>)
    requires k <= |s.members|
    decreases s, |s.members| - k
  {
    if k == |s.members| then []
    else
      var e := s.members[k];
      [(e, depth)] + (if e.sub.Some? then ForEachRead(e.sub.value, 0, depth + 1) else []) + ForEachRead(s, k + 1, depth)
  }

  /** The same walk by record numbers: the number of every member's record in a block at first, with its depth. */
  function Numbers(s: Struct, first: nat, k: nat, depth: nat): (r: seq<(nat, nat)>)
    requires k <= |s.members|
    decreases s, |s.members| - k
  {
    if k == |s.members| then []
    else
      var sub := s.members[k].sub;
      [(first + k, depth)] + (if sub.Some? then Numbers(sub.value, BlockStart(s, first, k), 0, depth + 1) else [])
      + Numbers(s, first, k + 1, depth)
  }

  lemma {:induction false} NumbersCount(s: Struct, first: nat, k: nat, depth: nat)
    requires k <= |s.members|
    ensures |Numbers(s, first, k, depth)| == |ForEachRead(s, k, depth)| == CountFrom(s, k)
    decreases s, |s.members| - k
  {
    if k < |s.members| {
      if s.members[k].sub.Some? {
        NumbersCount(s.members[k].sub.value, BlockStart(s, first, k), 0, depth + 1);
      }
      NumbersCount(s, first, k + 1, depth);
    }
  }

  /** The block of member i holds that member's struct: counted from member k on, and from the start. */
  lemma {:induction false} BlockOf(s: Struct, base: nat, k: nat, i: nat, n: nat)
    requires k <= i < |s.members| && s.members[i].sub.Some? && n < Count(s.members[i].sub.value)
    ensures BlocksFrom(s, i) <= BlocksFrom(s, k) && BlocksFrom(s, k) - BlocksFrom(s, i) + n < BlocksFrom(s, k)
    ensures NthFrom(s, base, k, BlocksFrom(s, k) - BlocksFrom(s, i) + n)
         == Nth(s.members[i].sub.value, base + s.members[i].offset, n)
    decreases i - k
  {
    hide Nth;
    CountMembers(s, k + 1);
    if k < i {
      BlockOf(s, base, k + 1, i, n);
    }
  }

  lemma InBlock(s: Struct, base: nat, first: nat, i: nat, n: nat)
    requires i < |s.members| && s.members[i].sub.Some? && n < Count(s.members[i].sub.value)
    ensures var m := BlockStart(s, first, i) - first + n;
      m < Count(s) && Nth(s, base, m) == Nth(s.members[i].sub.value, base + s.members[i].offset, n)
  {
    hide NthFrom;
    CountMembers(s, 0);
    BlockOf(s, base, 0, i, n);
  }

  /** A number and a depth stand for member n of the struct at this depth. */
  ghost predicate StandsFor(call: (nat, nat), read: (Element, nat), s: Struct, first: nat, base: nat) {
    && first <= call.0 < first + Count(s) && call.1 == read.1
    && Nth(s, base, call.0 - first).element == read.0
  }

  /** Call by call, visiting by numbers is reading by members. */
  lemma {:induction false} NumbersRead(s: Struct, first: nat, base: nat, k: nat, depth: nat, j: nat)
    requires k <= |s.members| && j < CountFrom(s, k)
    ensures |Numbers(s, first, k, depth)| == |ForEachRead(s, k, depth)| == CountFrom(s, k)
    ensures StandsFor(Numbers(s, first, k, depth)[j], ForEachRead(s, k, depth)[j], s, first, base)
    decreases s, |s.members| - k
  {
    hide StandsFor;
    NumbersCount(s, first, k, depth);
    var sub := s.members[k].sub;
    if j == 0 {
      OwnMember(s, first, base, k, depth);
    } else if sub.Some? && j - 1 < Count(sub.value) {
      var start, at := BlockStart(s, first, k), base + s.members[k].offset;
      NumbersRead(sub.value, start, at, 0, depth + 1, j - 1);
      NumbersCount(s, first, k + 1, depth);
      InSub(s, first, base, k, Numbers(sub.value, start, 0, depth + 1)[j - 1], ForEachRead(sub.value, 0, depth + 1)[j - 1]);
    } else {
      if sub.Some? {
        NumbersCount(sub.value, BlockStart(s, first, k), 0, depth + 1);
      }
      NumbersRead(s, first, base, k + 1, depth, j - 1 - if sub.Some? then Count(sub.value) else 0);
    }
  }

  lemma OwnMember(s: Struct, first: nat, base: nat, k: nat, depth: nat)
    requires k < |s.members|
    ensures StandsFor((first + k, depth), (s.members[k], depth), s, first, base)
  {
    CountMembers(s, 0);
  }

  lemma InSub(s: Struct, first: nat, base: nat, k: nat, call: (nat, nat), read: (Element, nat))
    requires k < |s.members| && s.members[k].sub.Some?
    requires StandsFor(call, read, s.members[k].sub.value, BlockStart(s, first, k), base + s.members[k].offset)
    ensures StandsFor(call, read, s, first, base)
  {
    hide Nth;
    InBlock(s, base, first, k, call.0 - BlockStart(s, first, k));
  }

  ghost predicate Calls(calls: seq<(nat, nat)>, number: nat) {
    exists j | 0 <= j < |calls| :: calls[j].0 == number
  }

  lemma CallsJoin(a: seq<(nat, nat)>, b: seq<(nat, nat)>, c: seq<(nat, nat)>, number: nat)
    requires Calls(a, number) || Calls(b, number) || Calls(c, number)
    ensures Calls(a + b + c, number)
  {
    var whole := a + b + c;
    if Calls(a, number) {
      var j :| 0 <= j < |a| && a[j].0 == number;
      assert whole[j].0 == number;
    } else if Calls(b, number) {
      var j :| 0 <= j < |b| && b[j].0 == number;
      assert whole[|a| + j].0 == number;
    } else {
      var j :| 0 <= j < |c| && c[j].0 == number;
      assert whole[|a| + |b| + j].0 == number;
    }
  }

  /** Every record of members k and above and of their blocks is visited; as there are just so many calls, once. */
  lemma {:induction false} NumbersAll(s: Struct, first: nat, k: nat, depth: nat, number: nat)
    requires k <= |s.members|
    requires first + k <= number < first + |s.members| || BlockStart(s, first, k) <= number < first + Count(s)
    ensures Calls(Numbers(s, first, k, depth), number)
    decreases s, |s.members| - k
  {
    hide Calls;
    CountMembers(s, k);
    var sub := s.members[k].sub;
    var own, start := [(first + k, depth)], BlockStart(s, first, k);
    var below := if sub.Some? then Numbers(sub.value, start, 0, depth + 1) else [];
    if number == first + k {
      OneCall(first + k, depth);
    } else if sub.Some? && start <= number < start + Count(sub.value) {
      CountMembers(sub.value, 0);
      NumbersAll(sub.value, start, 0, depth + 1, number);
    } else {
      CountMembers(s, k + 1);
      NumbersAll(s, first, k + 1, depth, number);
    }
    CallsJoin(own, below, Numbers(s, first, k + 1, depth), number);
  }

  lemma OneCall(number: nat, depth: nat)
    ensures Calls([(number, depth)], number)
  {
    assert [(number, depth)][0].0 == number;
  }

  const LEAF: Struct := Struct("", "", 0, 1, [])

  /**
   visit_sub. It is called for every record, as every valid index passes for a struct: a record that is none has no
   members to visit. The calls are the plain walk's, number by number.
   */
  method VisitSub(f: Flat, idx: nat, count: nat, depth: nat, ghost s: Struct, ghost base: nat)
    returns (calls: seq<(nat, nat)>)
    requires Small(s) && count == |s.members| && (count > 0 ==> Laid(f, idx, s, base))
    ensures calls == Numbers(s, idx, 0, depth)
    decreases Count(s)
  {
    hide TextAt, Numbers, Matches, BlockStart;
    calls := [];
    for i := 0 to count
      invariant calls + Numbers(s, idx, i, depth) == Numbers(s, idx, 0, depth)
    {
      ghost var e := s.members[i];
      assert LaidAt(f, idx, s, base, i);
      var r := f.records[idx + i];
      ghost var sub := if e.sub.Some? then e.sub.value else LEAF;
      SubCount(s, i);
      CountOfMembers(r, e, base, f);
      var below := VisitSub(f, r.structOffset, r.memberCount, depth + 1, sub, base + e.offset);
      NumbersJoin(calls, s, idx, i, depth, r.structOffset);
      calls := calls + [(idx + i, depth)] + below;
    }
    NumbersEnd(s, idx, depth);
    assert calls + [] == calls;
  }

  lemma CountOfMembers(r: Record, e: Element, base: nat, f: Flat)
    requires Matches(r, e, base, f)
    ensures r.memberCount == if e.sub.Some? then |e.sub.value.members| % 256 else 0
  {
  }

  lemma NumbersEnd(s: Struct, first: nat, depth: nat)
    ensures Numbers(s, first, |s.members|, depth) == []
  {
  }

  lemma NumbersJoin(calls: seq<(nat, nat)>, s: Struct, first: nat, i: nat, depth: nat, start: nat)
    requires i < |s.members| && (s.members[i].sub.Some? ==> start == BlockStart(s, first, i))
    ensures var below := Numbers(if s.members[i].sub.Some? then s.members[i].sub.value else LEAF, start, 0, depth + 1);
      calls + Numbers(s, first, i, depth) == calls + [(first + i, depth)] + below + Numbers(s, first, i + 1, depth)
  {
    hide BlockStart;
    var below := Numbers(if s.members[i].sub.Some? then s.members[i].sub.value else LEAF, start, 0, depth + 1);
    assert Numbers(s, first, i, depth) == [(first + i, depth)] + below + Numbers(s, first, i + 1, depth);
    Assoc4(calls, [(first + i, depth)], below, Numbers(s, first, i + 1, depth));
    Assoc([(first + i, depth)], below, Numbers(s, first, i + 1, depth));
  }

  lemma {:induction false} SubCount(s: Struct, i: nat)
    requires i < |s.members|
    ensures s.members[i].sub.Some? ==> Count(s.members[i].sub.value) < Count(s)
    ensures Count(LEAF) < Count(s)
  {
    SubCountFrom(s, 0, i);
  }

  lemma {:induction false} SubCountFrom(s: Struct, k: nat, i: nat)
    requires k <= i < |s.members|
    ensures CountFrom(s, k) > if s.members[i].sub.Some? then CountFrom(s.members[i].sub.value, 0) else 0
    decreases i - k
  {
    if k < i {
      SubCountFrom(s, k + 1, i);
    }
  }
}
