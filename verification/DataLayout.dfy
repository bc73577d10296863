/** DataLayout: compiles a struct descriptor into records, an info segment and a name index, and answers look-ups. */
module DataLayouts {
  import opened Basics
  import opened BufferVector
  import opened DataTypes
  import opened Flatten
  import opened NameIndex
  import opened StructLayout

  const HEAD_SIZE: nat := 16
  const RECORD_SIZE: nat := 32

  /**
   The head has two counts of 16 bits, an offset of 32 and a hash of 64; a record has four bytes, four offsets of 16 bits, a
   custom value of 32, and place and size of 64.
   */
  lemma FieldWidths()
    ensures 8 * HEAD_SIZE == 2 * 16 + 32 + 64 && 8 * RECORD_SIZE == 4 * 8 + 4 * 16 + 32 + 2 * 64
  {
  }

  // ----- Relocation: the segments are joined behind the head and the records -----

  /** An offset of 0 stays 0; any other is one too large, and moves to its segment. */
  function Relocated(offset: nat, segmentStart: nat): nat
    requires segmentStart > 0
  {
    if offset == 0 then 0 else (offset + segmentStart - 1) % TWO_16
  }

  function Relocate(r: Record, names: nat, descs: nat, arrays: nat): Record
    requires names > 0 && descs > 0 && arrays > 0
  {
    r.(nameOffset := Relocated(r.nameOffset, names), descOffset := Relocated(r.descOffset, descs),
       arrayInfoOffset := Relocated(r.arrayInfoOffset, arrays))
  }

  /** The table as it is read: offsets are places in the whole segment, one above places in it without its first byte. */
  function View(records: seq<Record>, segment: string): Flat
    requires segment != ""
  {
    Flat(records, segment[1..], segment[1..], segment[1..])
  }

  /** A segment stands in the whole one at this place. */
  predicate PartAt(segment: string, part: string, at: nat) {
    at > 0 && at + |part| <= |segment| && segment[at..at + |part|] == part
  }

  lemma TextMoved(part: string, segment: string, at: nat, offset: nat, text: string)
    requires TextAt(part, offset, text) && PartAt(segment, part, at) && segment != ""
    ensures TextAt(segment[1..], Relocated(offset, at), text)
  {
    if text != "" && |segment[1..]| < TWO_16 {
      var place := offset + at - 1;
      assert Relocated(offset, at) == place;
      assert segment[at..at + |part|][offset - 1 + |text|] == '\0';
      forall k | 0 <= k < |text|
        ensures segment[1..][place - 1 + k] == text[k]
      {
        assert segment[at..at + |part|][offset - 1 + k] == part[offset - 1..offset - 1 + |text|][k];
      }
      assert segment[1..][place - 1..place - 1 + |text|] == text;
    }
  }

  lemma ArrayMoved(part: string, segment: string, at: nat, offset: nat, dims: seq<nat>)
    requires ArrayAt(part, offset, dims) && PartAt(segment, part, at) && segment != ""
    ensures ArrayAt(segment[1..], Relocated(offset, at), dims)
  {
    hide DimBytes, Stored;
    var b := DimBytes(Stored(dims));
    if dims != [] && |segment[1..]| < TWO_16 - 1 {
      var place := offset + at - 1;
      assert Relocated(offset, at) == place;
      forall k | 0 <= k < |b|
        ensures segment[1..][place - 1 + k] == b[k]
      {
        assert segment[at..at + |part|][offset - 1 + k] == part[offset - 1..offset - 1 + |b|][k];
      }
      assert segment[1..][place - 1..place - 1 + |b|] == b;
    }
  }

  /** The parts of the info segment. */
  ghost predicate Joined(f: Flat, segment: string) {
    var start := HEAD_SIZE + RECORD_SIZE * |f.records|;
    && |segment| == start + |f.names| + |f.descs| + |f.arrays|
    && PartAt(segment, f.names, start) && PartAt(segment, f.descs, start + |f.names|)
    && PartAt(segment, f.arrays, start + |f.names| + |f.descs|)
  }

  ghost predicate AllRelocated(f: Flat, records: seq<Record>) {
    var start := HEAD_SIZE + RECORD_SIZE * |f.records|;
    |records| == |f.records| && forall j | 0 <= j < |records| ::
      records[j] == Relocate(f.records[j], start, start + |f.names|, start + |f.names| + |f.descs|)
  }

  lemma MatchesMoved(r: Record, e: Element, base: nat, f: Flat, segment: string, records: seq<Record>)
    requires Matches(r, e, base, f) && Joined(f, segment) && segment != ""
    ensures var start := HEAD_SIZE + RECORD_SIZE * |f.records|;
      Matches(Relocate(r, start, start + |f.names|, start + |f.names| + |f.descs|), e, base, View(records, segment))
  {
    hide TextAt, ArrayAt, PartAt, Relocated;
    var start := HEAD_SIZE + RECORD_SIZE * |f.records|;
    TextMoved(f.names, segment, start, r.nameOffset, e.name);
    TextMoved(f.descs, segment, start + |f.names|, r.descOffset, e.desc);
    ArrayMoved(f.arrays, segment, start + |f.names| + |f.descs|, r.arrayInfoOffset, e.arrays);
  }

  lemma {:induction false} LaidMoved(f: Flat, first: nat, s: Struct, base: nat, segment: string, records: seq<Record>)
    requires Laid(f, first, s, base) && Joined(f, segment) && segment != "" && AllRelocated(f, records)
    ensures Laid(View(records, segment), first, s, base)
    decreases s
  {
    hide Matches, Joined, View;
    var g := View(records, segment);
    assert g.records == records by {
      ViewRecords(records, segment);
    }
    forall i | 0 <= i < |s.members|
      ensures LaidAt(g, first, s, base, i)
    {
      assert LaidAt(f, first, s, base, i);
      var r, e := f.records[first + i], s.members[i];
      MatchesMoved(r, e, base, f, segment, records);
      if e.sub.Some? {
        LaidMoved(f, r.structOffset, e.sub.value, base + e.offset, segment, records);
      }
    }
  }

  lemma ViewRecords(records: seq<Record>, segment: string)
    requires segment != ""
    ensures View(records, segment).records == records
  {
  }

  // ----- Reading strings -----

  /** A string up to its terminating zero. */
  function CString(segment: string, p: nat): (text: string)
    decreases |segment| - p
  {
    if p < |segment| && segment[p] != '\0' then [segment[p]] + CString(segment, p + 1) else ""
  }

  predicate NoZero(text: string) { forall i | 0 <= i < |text| :: text[i] != '\0' }

  lemma {:induction false} CStringIs(segment: string, p: nat, text: string)
    requires p + |text| < |segment| && segment[p..p + |text|] == text && segment[p + |text|] == '\0' && NoZero(text)
    ensures CString(segment, p) == text
    decreases |text|
  {
    if text != "" {
      assert segment[p] == segment[p..p + |text|][0] == text[0];
      assert segment[p + 1..p + |text|] == segment[p..p + |text|][1..] == text[1..];
      CStringIs(segment, p + 1, text[1..]);
    }
  }

  /** A text that a record's offset leads to is read back, as long as the whole segment fits 16-bit offsets. */
  lemma TextRead(segment: string, offset: nat, text: string)
    requires segment != "" && |segment| <= TWO_16 && TextAt(segment[1..], offset, text) && NoZero(text)
    ensures text == if offset == 0 then "" else CString(segment, offset)
  {
    if text != "" {
      assert segment[1..][offset - 1..offset - 1 + |text|] == segment[offset..offset + |text|];
      CStringIs(segment, offset, text);
    }
  }

  /** No name and no description of the struct, at any depth, holds a zero. */
  predicate TextsOk(s: Struct)
    decreases s
  {
    forall i | 0 <= i < |s.members| ::
      NoZero(s.members[i].name) && NoZero(s.members[i].desc)
      && (s.members[i].sub.Some? ==> TextsOk(s.members[i].sub.value))
  }

  lemma {:induction false} TextsNth(s: Struct, base: nat, n: nat)
    requires TextsOk(s) && n < Count(s)
    ensures NoZero(Nth(s, base, n).element.name) && NoZero(Nth(s, base, n).element.desc)
    decreases s, 1
  {
    if n >= |s.members| {
      TextsNthFrom(s, base, 0, n - |s.members|);
    }
  }

  lemma {:induction false} TextsNthFrom(s: Struct, base: nat, k: nat, m: nat)
    requires TextsOk(s) && k <= |s.members| && m < BlocksFrom(s, k)
    ensures NoZero(NthFrom(s, base, k, m).element.name) && NoZero(NthFrom(s, base, k, m).element.desc)
    decreases s, 0, |s.members| - k
  {
    hide NoZero;
    CountMembers(s, k);
    var sub := s.members[k].sub;
    if sub.None? {
      TextsNthFrom(s, base, k + 1, m);
    } else if m < Count(sub.value) {
      TextsNth(sub.value, base + s.members[k].offset, m);
    } else {
      TextsNthFrom(s, base, k + 1, m - Count(sub.value));
    }
  }

  /** get_member_name: empty for offset 0, else the string at the offset. */
  function NameOf(r: Record, info: string): string {
    if r.nameOffset == 0 then "" else CString(info, r.nameOffset)
  }

  function DescOf(r: Record, info: string): string {
    if r.descOffset == 0 then "" else CString(info, r.descOffset)
  }

  /** is_member_array: a record with an offset to its dimensions gives a list that is not empty. */
  predicate IsArray(r: Record) { r.arrayInfoOffset != 0 }

  /** Four bytes as a number, lowest first. */
  function WordAt(info: string, p: nat): nat
    requires p + 4 <= |info|
  {
    info[p] as nat + 256 * info[p + 1] as nat + 65536 * info[p + 2] as nat + 16777216 * info[p + 3] as nat
  }

  lemma FourDigits(d: nat)
    ensures d % 256 + 256 * (d / 256 % 256) + 65536 * (d / 65536 % 256) + 16777216 * (d / 16777216 % 256) == d % TWO_32
  {
    var q1, q2, q3, q4 := d / 256, d / 65536, d / 16777216, d / 0x1_0000_0000;
    assert q1 / 256 == q2 && q2 / 256 == q3 && q3 / 256 == q4;
  }

  lemma WordRead(d: nat)
    ensures WordAt(WordBytes(d), 0) == d % TWO_32
  {
    FourDigits(d);
    var b := WordBytes(d);
    assert b[0] as nat == d % 256 && b[1] as nat == d / 256 % 256;
    assert b[2] as nat == d / 65536 % 256 && b[3] as nat == d / 16777216 % 256;
  }

  /** The only dimension of a member is read back, as a 32-bit value. */
  lemma DimensionRead(info: string, offset: nat, d: nat)
    requires info != "" && |info| < TWO_16 && ArrayAt(info[1..], offset, [d])
    ensures offset > 0 && offset + 4 <= |info| && WordAt(info, offset) == d % TWO_32
  {
    hide WordBytes;
    assert [d][..1] == [d] && [d][1..] == [];
    assert DimBytes([d]) == WordBytes(d) + "" == WordBytes(d);
    WordRead(d);
    var b := WordBytes(d);
    assert info[1..][offset - 1..offset - 1 + 4] == b;
    assert info[1..][offset - 1..offset - 1 + 4] == info[offset..offset + 4];
    assert info[offset..offset + 4][1] == info[offset + 1] && info[offset..offset + 4][2] == info[offset + 2];
    assert info[offset..offset + 4][3] == info[offset + 3];
  }

  lemma StringsRead(r: Record, e: Element, base: nat, records: seq<Record>, info: string)
    requires info != "" && |info| <= TWO_16 && Matches(r, e, base, View(records, info)) && NoZero(e.name) && NoZero(e.desc)
    ensures NameOf(r, info) == e.name && DescOf(r, info) == e.desc
  {
    hide TextAt, CString, ArrayAt;
    TextRead(info, r.nameOffset, e.name);
    TextRead(info, r.descOffset, e.desc);
  }

  // ----- The name index -----

  /** Offsets and counts fit the record, and names and descriptions are as the look-ups expect them. */
  ghost predicate Readable(info: string, s: Struct) {
    |info| < TWO_16 - 1 && Small(s) && NamesOk(s) && TextsOk(s)
  }

  lemma SubReadable(info: string, s: Struct, i: nat)
    requires Readable(info, s) && i < |s.members| && s.members[i].sub.Some?
    ensures Readable(info, s.members[i].sub.value) && |s.members[i].sub.value.members| < 256
  {
  }

  /** A struct member's record leads to the struct's block. */
  lemma EntryBlock(records: seq<Record>, info: string, first: nat, s: Struct, base: nat, i: nat)
    requires info != "" && i < |s.members| && Laid(View(records, info), first, s, base)
    ensures first + i < |records|
    ensures var r, e := records[first + i], s.members[i];
      && r.dataOffset == base + e.offset
      && (e.sub.None? ==> r.memberCount == 0)
      && (e.sub.Some? ==>
            && r.memberCount == |e.sub.value.members| % 256 && r.structOffset == BlockStart(s, first, i)
            && Laid(View(records, info), r.structOffset, e.sub.value, base + e.offset))
  {
    hide TextAt;
    assert LaidAt(View(records, info), first, s, base, i);
  }

  lemma EntryRead(records: seq<Record>, info: string, first: nat, s: Struct, base: nat, i: nat)
    requires info != "" && i < |s.members| && Laid(View(records, info), first, s, base) && Readable(info, s)
    ensures first + i < |records|
    ensures NameOf(records[first + i], info) == s.members[i].name
    ensures IsArray(records[first + i]) <==> s.members[i].arrays != []
  {
    hide TextAt, CString, NameOf, DescOf, NoZero, NamesOk, DimBytes;
    assert LaidAt(View(records, info), first, s, base, i);
    StringsRead(records[first + i], s.members[i], base, records, info);
    assert IsArray(records[first + i]) <==> s.members[i].arrays != [] by {
      var r, e := records[first + i], s.members[i];
      assert |View(records, info).arrays| < TWO_16 - 1;
      assert r.arrayInfoOffset == 0 <==> e.arrays == [];
    }
  }

  lemma NothingAdded(m: map<string, Place>, prefix: string, s: Struct, base: nat, first: nat)
    ensures Adds(m, m, prefix, s, base, first, 0)
  {
  }

  /** generate_name_mapped: adds the names of a block, and those inside its structs, behind a prefix. */
  method GenerateNames(records: seq<Record>, info: string, first: nat, count: nat, prefix: string, m: map<string, Place>,
                       ghost s: Struct, ghost base: nat) returns (m': map<string, Place>)
    requires info != "" && count <= |s.members| && (count > 0 ==> Laid(View(records, info), first, s, base))
    ensures Readable(info, s) ==> Adds(m, m', prefix, s, base, first, count)
    ensures count == 0 ==> m' == m
    decreases Count(s)
  {
    hide Laid, View, Readable, Adds, NameOf, IsArray, BlockStart;
    m' := m;
    NothingAdded(m, prefix, s, base, first);
    for i := 0 to count
      invariant Readable(info, s) ==> Adds(m, m', prefix, s, base, first, i)
      invariant i == 0 ==> m' == m
    {
      EntryBlock(records, info, first, s, base, i);
      SubCount(s, i);
      ghost var e, m1 := s.members[i], m';
      var r := records[first + i];
      var name := prefix + NameOf(r, info);
      m' := m'[name := Place(r.dataOffset, first + i)];
      if !IsArray(r) {
        m' := GenerateNames(records, info, r.structOffset, r.memberCount, name + ['.'], m',
          if e.sub.Some? then e.sub.value else LEAF, base + e.offset);
      }
      if Readable(info, s) {
        EntryRead(records, info, first, s, base, i);
        ReadableNames(info, s);
        if e.sub.Some? {
          SubReadable(info, s, i);
        }
        OneMember(m, m1, m', prefix, s, base, first, i);
      }
    }
  }

  lemma ReadableNames(info: string, s: Struct)
    requires Readable(info, s)
    ensures NamesOk(s)
  {
  }

  lemma IndexIsWalk(m: map<string, Place>, s: Struct)
    requires Adds(map[], m, "", s, 0, 0, |s.members|)
    ensures forall key :: Value(m, key) == Find(s, 0, 0, key)
  {
    hide Find, FindBelow, Adds;
    forall key
      ensures Value(m, key) == Find(s, 0, 0, key)
    {
      AddsAt(map[], m, "", s, 0, 0, |s.members|, key);
      assert key[0..] == key;
      FindAll(s, 0, 0, key);
    }
  }

  // ----- Joining the segments -----

  method Join(f: Flat) returns (segment: DataBufferVector)
    ensures fresh(segment) && fresh(segment.buffer) && segment.Valid() && Joined(f, segment.Contents())
    ensures |segment.Contents()| >= HEAD_SIZE + RECORD_SIZE * |f.records|
  {
    segment := new DataBufferVector(64);
    segment.Reserve(HEAD_SIZE + RECORD_SIZE * |f.records| + |f.names| + |f.descs| + |f.arrays|);
    segment.PushBack(Bytes(HEAD_SIZE));
    segment.PushBack(Bytes(RECORD_SIZE * |f.records|));
    ghost var start := segment.Contents();
    segment.PushBack(f.names);
    segment.PushBack(f.descs);
    segment.PushBack(f.arrays);
    JoinedParts(f, start, segment.Contents());
  }

  /** Bytes that are not modelled: the head and the records as bytes. */
  function Bytes(n: nat): (b: string)
    ensures |b| == n
  {
    seq(n, _ => '\0')
  }

  lemma JoinedParts(f: Flat, start: string, whole: string)
    requires |start| == HEAD_SIZE + RECORD_SIZE * |f.records| && whole == start + f.names + f.descs + f.arrays
    ensures Joined(f, whole)
  {
    assert whole[|start|..|start| + |f.names|] == f.names;
    assert whole[|start| + |f.names|..|start| + |f.names| + |f.descs|] == f.descs;
    assert whole[|start| + |f.names| + |f.descs|..|start| + |f.names| + |f.descs| + |f.arrays|] == f.arrays;
  }

  method RelocateAll(f: Flat) returns (records: seq<Record>)
    ensures AllRelocated(f, records)
  {
    var offsetName := HEAD_SIZE + RECORD_SIZE * |f.records|;
    var offsetDesc := offsetName + |f.names|;
    var offsetArrayInfo := offsetDesc + |f.descs|;
    records := [];
    for i := 0 to |f.records|
      invariant |records| == i
      invariant forall j | 0 <= j < i :: records[j] == Relocate(f.records[j], offsetName, offsetDesc, offsetArrayInfo)
    {
      records := records + [Relocate(f.records[i], offsetName, offsetDesc, offsetArrayInfo)];
    }
  }

  // ----- The layout -----

  class DataLayout {
    const target: Struct
    var records: seq<Record>
    var mainMembers: nat
    var segment: DataBufferVector
    var nameIndex: map<string, Place>

    /** The info segment. */
    function Info(): string
      requires segment.offset <= segment.buffer.Length
      reads this, segment, segment.buffer
    {
      segment.Contents()
    }

    /** The records and the info segment describe the target struct. */
    ghost predicate Compiled()
      reads this, segment, segment.buffer
    {
      && segment.Valid() && Info() != ""
      && |records| == Count(target) && mainMembers == |target.members|
      && |Info()| >= HEAD_SIZE + RECORD_SIZE * |records|
      && Laid(View(records, Info()), 0, target, 0)
    }

    /**
     Compiles the descriptor. The record table always describes it; if all can be read back, the name index holds just
     the names that the plain walk finds, with their addresses.
     */
    constructor (target: Struct)
      requires Count(target) < TWO_16
      ensures Compiled() && this.target == target && fresh(segment) && fresh(segment.buffer)
      ensures Readable(Info(), target) ==>
                forall key :: Value(nameIndex, key) == Find(target, 0, 0, key)
    {
      hide Laid, Joined, AllRelocated, View, Find, Readable, FlattenStruct;
      this.target := target;
      var f, n := VisitDataPacketDesc(target, 0, Flat([], "", "", ""));
      var joined := Join(f);
      var relocated := RelocateAll(f);
      var info := joined.Contents();
      Assembled(target, f, info, relocated);
      records, mainMembers, segment := relocated, n, joined;
      var index := GenerateNames(relocated, info, 0, n, "", map[], target, 0);
      if Readable(info, target) {
        IndexIsWalk(index, target);
      }
      nameIndex := index;
    }

    /** get_member_name and get_member_desc_text for every record. */
    method ReadStrings(idx: nat) returns (name: string, desc: string)
      requires Compiled()
      ensures idx < |records| && |Info()| <= TWO_16 && TextsOk(target) ==>
                name == Nth(target, 0, idx).element.name && desc == Nth(target, 0, idx).element.desc
      ensures idx >= |records| ==> name == "" && desc == ""
    {
      if idx >= |records| {
        return "", "";
      }
      name, desc := NameOf(records[idx], Info()), DescOf(records[idx], Info());
      if |Info()| <= TWO_16 && TextsOk(target) {
        RecordStrings(records, Info(), target, idx);
      }
    }

    /**
     get_member_array_info, for members of at most one dimension: the list is made with room for one element, whatever the
     number of dimensions.
     */
    method GetMemberArrayInfo(idx: nat) returns (dims: seq<nat>)
      requires Compiled() && |Info()| < TWO_16
      requires idx < |records| ==> |Nth(target, 0, idx).element.arrays| <= 1
      ensures idx >= |records| ==> dims == []
      ensures idx < |records| ==>
                var arrays := Nth(target, 0, idx).element.arrays;
                dims == if arrays == [] then [] else [arrays[0] % TWO_32]
    {
      hide Laid, Nth, ArrayAt, TextAt;
      if idx >= |records| {
        return [];
      }
      RecordDimension(records, Info(), target, idx);
      var offset := records[idx].arrayInfoOffset;
      if offset == 0 {
        return [];
      }
      dims := [WordAt(Info(), offset)];
    }

    /** visit: the callback sees the numbers of the plain walk over the struct, with their depths. */
    method Visit() returns (calls: seq<(nat, nat)>)
      requires Compiled() && Small(target)
      ensures calls == Numbers(target, 0, 0, 0)
    {
      hide Laid, Numbers;
      calls := VisitSub(View(records, Info()), 0, mainMembers, 0, target, 0);
    }
  }

  /**
   The numbers that visit hands out, each exactly once: number j leads to the record of member j of for_each_read, which
   tells of its name, description, size and absolute address.
   */
  lemma VisitReads(records: seq<Record>, info: string, s: Struct, j: nat)
    requires info != "" && Laid(View(records, info), 0, s, 0) && j < Count(s)
    ensures |Numbers(s, 0, 0, 0)| == |ForEachRead(s, 0, 0)| == Count(s) <= |records|
    ensures var (number, depth) := Numbers(s, 0, 0, 0)[j];
      && number < Count(s) && ForEachRead(s, 0, 0)[j] == (Nth(s, 0, number).element, depth)
      && Tells(records[number], Nth(s, 0, number), View(records, info))
    ensures Calls(Numbers(s, 0, 0, 0), j)
  {
    hide Laid, Nth, Tells, Calls, Numbers, ForEachRead;
    NumbersRead(s, 0, 0, 0, 0, j);
    RecordNth(View(records, info), 0, s, 0, Count(s) - 1);
    RecordNth(View(records, info), 0, s, 0, Numbers(s, 0, 0, 0)[j].0);
    NumbersAll(s, 0, 0, 0, j);
  }

  lemma RecordDimension(records: seq<Record>, info: string, s: Struct, n: nat)
    requires info != "" && Laid(View(records, info), 0, s, 0) && n < Count(s) && |info| < TWO_16
    requires |Nth(s, 0, n).element.arrays| <= 1
    ensures n < |records|
    ensures var offset, arrays := records[n].arrayInfoOffset, Nth(s, 0, n).element.arrays;
      if arrays == [] then offset == 0
      else offset > 0 && offset + 4 <= |info| && WordAt(info, offset) == arrays[0] % TWO_32
  {
    hide Laid, TextAt, ArrayAt, Nth, WordAt;
    RecordNth(View(records, info), 0, s, 0, n);
    var arrays := Nth(s, 0, n).element.arrays;
    if arrays == [] {
      NoArray(info[1..], records[n].arrayInfoOffset);
    } else {
      assert arrays == [arrays[0]];
      DimensionRead(info, records[n].arrayInfoOffset, arrays[0]);
    }
  }

  lemma NoArray(segment: string, offset: nat)
    requires ArrayAt(segment, offset, [])
    ensures offset == 0
  {
  }

  lemma RecordStrings(records: seq<Record>, info: string, s: Struct, n: nat)
    requires info != "" && Laid(View(records, info), 0, s, 0) && n < Count(s) && |info| <= TWO_16 && TextsOk(s)
    ensures n < |records|
    ensures NameOf(records[n], info) == Nth(s, 0, n).element.name && DescOf(records[n], info) == Nth(s, 0, n).element.desc
  {
    hide Laid, TextAt, NameOf, DescOf, NoZero, Nth, Matches;
    RecordNth(View(records, info), 0, s, 0, n);
    TextsNth(s, 0, n);
    var p := Nth(s, 0, n);
    StringsRead(records[n], p.element, p.base, records, info);
  }

  lemma Assembled(s: Struct, f: Flat, info: string, records: seq<Record>)
    requires Count(s) < TWO_16 && f == FlattenStruct(s, 0, Flat([], "", "", ""))
    requires Joined(f, info) && AllRelocated(f, records)
    ensures info != "" && |records| == Count(s) == |f.records| && |s.members| % TWO_16 == |s.members|
    ensures Laid(View(records, info), 0, s, 0)
  {
    hide Laid, View, FlattenStruct;
    var empty := Flat([], "", "", "");
    RecordCount(s, 0, empty);
    CountMembers(s, 0);
    FlattenLaid(s, 0, empty);
    LaidMoved(f, 0, s, 0, info, records);
  }
}
