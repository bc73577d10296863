/** Struct descriptors: members are placed one after the other at C-like alignments. */
module StructLayout {
  import opened Basics
  import opened DataTypes

  /** A compiled descriptor. Members of struct type hold the descriptor they were added with. */
  datatype Struct = Struct(name: string, desc: string, size: nat, alignment: nat, members: seq<Element>)

  datatype Element = Element(kind: MemberType, size: nat, offset: nat, alignment: nat, name: string, desc: string,
                             arrays: seq<nat>, sub: Option<Struct>, customData: nat)

  // ----- Divisibility -----

  predicate Divides(a: nat, x: nat) {
    a > 0 && x % a == 0
  }

  lemma MultipleOf(x: nat, a: nat, q: nat)
    requires a > 0 && x == q * a
    ensures Divides(a, x)
  {
    DivUnique(x, a, q, 0);
  }

  lemma Quotient(a: nat, x: nat) returns (q: nat)
    requires Divides(a, x)
    ensures x == q * a
  {
    q := x / a;
  }

  lemma DividesTrans(a: nat, b: nat, x: nat)
    requires Divides(a, b) && Divides(b, x)
    ensures Divides(a, x)
  {
    hide Divides;
    var q := Quotient(b, x);
    var p := Quotient(a, b);
    MulAssoc(q, p, a);
    Positive(a, b);
    MultipleOf(x, a, q * p);
  }

  lemma Positive(a: nat, x: nat)
    requires Divides(a, x)
    ensures a > 0
  {
  }

  lemma DividesSum(a: nat, x: nat, y: nat)
    requires Divides(a, x) && Divides(a, y)
    ensures Divides(a, x + y)
  {
    hide Divides;
    var p := Quotient(a, x);
    var q := Quotient(a, y);
    MulAdd(p, q, a);
    Positive(a, x);
    MultipleOf(x + y, a, p + q);
  }

  /** Multiples of a less than a apart are in order. */
  lemma MultiplesApart(a: nat, u: nat, m: nat)
    requires Divides(a, u) && Divides(a, m) && u < m + a
    ensures u <= m
  {
    hide Divides;
    var p := Quotient(a, u);
    var q := Quotient(a, m);
    MulAdd(q, 1, a);
    if p <= q {
      MulMonotone(p, q, a);
    } else {
      MulMonotone(q + 1, p, a);
    }
  }

  ghost predicate IsPow2(a: nat) {
    exists k: nat :: a == Pow2(k)
  }

  lemma {:induction false} PowerDivides(k: nat, n: nat)
    requires k <= n
    ensures Divides(Pow2(k), Pow2(n))
  {
    if k == n {
      MultipleOf(Pow2(n), Pow2(k), 1);
    } else {
      PowerDivides(k, n - 1);
      DividesSum(Pow2(k), Pow2(n - 1), Pow2(n - 1));
    }
  }

  /** Of two powers of two the smaller divides the larger. */
  lemma Pow2Divides(a: nat, b: nat)
    requires IsPow2(a) && IsPow2(b) && a <= b
    ensures Divides(a, b)
  {
    var k: nat :| a == Pow2(k);
    var n: nat :| b == Pow2(n);
    if n < k {
      Pow2Monotone(n, k);
      assert a == b;
      MultipleOf(b, a, 1);
    } else {
      PowerDivides(k, n);
    }
  }

  // ----- Alignment -----

  /** calc_size_after_alignment. */
  function AlignUp(x: nat, a: nat): (r: nat)
    requires a > 0
  {
    x + (a - x % a) % a
  }

  lemma AlignUpBounds(x: nat, a: nat)
    requires a > 0
    ensures x <= AlignUp(x, a) < x + a && Divides(a, AlignUp(x, a))
  {
    hide Divides;
    var q, r := x / a, x % a;
    assert x == q * a + r;
    if r == 0 {
      DivUnique(a, a, 1, 0);
      MultipleOf(x, a, q);
    } else {
      DivUnique(a - r, a, 0, a - r);
      MulAdd(q, 1, a);
      MultipleOf(AlignUp(x, a), a, q + 1);
    }
  }

  /** It is the least multiple of a that is not below x. */
  lemma AlignUpLeast(x: nat, a: nat, m: nat)
    requires a > 0 && x <= m && Divides(a, m)
    ensures AlignUp(x, a) <= m
  {
    hide AlignUp, Divides;
    AlignUpBounds(x, a);
    MultiplesApart(a, AlignUp(x, a), m);
  }

  // ----- Members in order -----

  function Max(a: nat, b: nat): (m: nat)
    ensures m >= a && m >= b && (m == a || m == b)
  {
    if a > b then a else b
  }

  /** The size of an array of elements of this size; that of one element without dimensions. */
  function Times(size: nat, dims: seq<nat>): nat {
    if dims == [] then size else Times(size, dims[..|dims| - 1]) * dims[|dims| - 1]
  }

  lemma {:induction false} TimesGrows(size: nat, dims: seq<nat>)
    requires forall i | 0 <= i < |dims| :: dims[i] > 0
    ensures Times(size, dims) >= size
  {
    if dims != [] {
      TimesGrows(size, dims[..|dims| - 1]);
      MulMonotone(1, dims[|dims| - 1], Times(size, dims[..|dims| - 1]));
    }
  }

  /** The index vectors of an array's elements. */
  predicate IsIndex(ix: seq<nat>, dims: seq<nat>) {
    |ix| == |dims| && forall i | 0 <= i < |dims| :: ix[i] < dims[i]
  }

  /** How many elements stand before this one, row by row. */
  function Cell(ix: seq<nat>, dims: seq<nat>): nat
    requires |ix| == |dims|
  {
    if dims == [] then 0 else Cell(ix[..|ix| - 1], dims[..|dims| - 1]) * dims[|dims| - 1] + ix[|ix| - 1]
  }

  /** Rows of d elements one after the other: element k of row c ends where row c + 1 begins, or before. */
  lemma RowEnds(c: nat, k: nat, d: nat, size: nat, t: nat)
    requires k < d && (c + 1) * size <= t
    ensures (c * d + k + 1) * size <= t * d
    ensures k == d - 1 && (c + 1) * size == t ==> (c * d + k + 1) * size == t * d
  {
    MulAdd(c, 1, d);
    MulMonotone(c * d + k + 1, (c + 1) * d, size);
    MulSwap(c + 1, d, size);
    MulMonotone((c + 1) * size, t, d);
  }

  /** Every element of an array lies inside it. */
  lemma {:induction false} CellInside(size: nat, dims: seq<nat>, ix: seq<nat>)
    requires IsIndex(ix, dims)
    ensures (Cell(ix, dims) + 1) * size <= Times(size, dims)
  {
    if dims != [] {
      var n := |dims| - 1;
      CellInside(size, dims[..n], ix[..n]);
      RowEnds(Cell(ix[..n], dims[..n]), ix[n], dims[n], size, Times(size, dims[..n]));
    }
  }

  /** The last one ends where the array ends, if there is one. */
  lemma {:induction false} LastCell(size: nat, dims: seq<nat>) returns (ix: seq<nat>)
    requires forall i | 0 <= i < |dims| :: dims[i] > 0
    ensures IsIndex(ix, dims) && (Cell(ix, dims) + 1) * size == Times(size, dims)
  {
    ix := [];
    if dims != [] {
      var n := |dims| - 1;
      var before := LastCell(size, dims[..n]);
      ix := before + [dims[n] - 1];
      assert ix[..n] == before;
      assert forall i | 0 <= i < n :: before[i] < dims[..n][i];
      RowEnds(Cell(before, dims[..n]), ix[n], dims[n], size, Times(size, dims[..n]));
    }
  }

  /** Different elements stand at different places. */
  lemma {:induction false} CellsDiffer(dims: seq<nat>, ix: seq<nat>, jx: seq<nat>)
    requires IsIndex(ix, dims) && IsIndex(jx, dims) && Cell(ix, dims) == Cell(jx, dims)
    ensures ix == jx
  {
    if dims != [] {
      var n := |dims| - 1;
      var c, d := Cell(ix[..n], dims[..n]), Cell(jx[..n], dims[..n]);
      DivUnique(c * dims[n] + ix[n], dims[n], c, ix[n]);
      DivUnique(d * dims[n] + jx[n], dims[n], d, jx[n]);
      CellsDiffer(dims[..n], ix[..n], jx[..n]);
      assert ix == ix[..n] + [ix[n]] && jx == jx[..n] + [jx[n]];
    }
  }

  /** The alignment a member is placed at: for a basic type at least its own. */
  function Effective(e: Element): (a: nat)
    ensures a >= BasicAlign(e.kind) && a >= e.alignment && (a == BasicAlign(e.kind) || a == e.alignment)
  {
    Max(BasicAlign(e.kind), e.alignment)
  }

  function EndOf(ms: seq<Element>): nat {
    if ms == [] then 0 else ms[|ms| - 1].offset + ms[|ms| - 1].size
  }

  function MaxEffective(ms: seq<Element>): (m: nat)
    ensures m >= 1
  {
    if ms == [] then 1 else Max(MaxEffective(ms[..|ms| - 1]), Effective(ms[|ms| - 1]))
  }

  lemma {:induction false} MaxBound(ms: seq<Element>, i: nat)
    requires i < |ms|
    ensures Effective(ms[i]) <= MaxEffective(ms)
  {
    hide Effective;
    if i < |ms| - 1 {
      MaxBound(ms[..|ms| - 1], i);
    }
  }

  /** It is the alignment of some member, or 1. */
  lemma {:induction false} MaxAttained(ms: seq<Element>) returns (i: nat)
    ensures MaxEffective(ms) == 1 || (i < |ms| && MaxEffective(ms) == Effective(ms[i]))
  {
    hide Effective;
    i := 0;
    if ms != [] {
      i := MaxAttained(ms[..|ms| - 1]);
      if MaxEffective(ms) == Effective(ms[|ms| - 1]) {
        i := |ms| - 1;
      }
    }
  }

  /** Every member begins at the first place behind the one before it that its alignment allows. */
  ghost predicate Packed(ms: seq<Element>) {
    forall i | 0 <= i < |ms| :: Effective(ms[i]) > 0 && ms[i].offset == AlignUp(EndOf(ms[..i]), Effective(ms[i]))
  }

  /** A member has the size of its type times its dimensions, and a struct's own alignment at least. */
  ghost predicate ElementOk(e: Element) {
    && (e.kind == Structure <==> e.sub.Some?) && e.kind != Invalid
    && e.size == Times(if e.sub.Some? then e.sub.value.size else BasicSize(e.kind), e.arrays)
    && (e.sub.Some? ==> e.sub.value.alignment <= e.alignment)
  }

  /** A compiled struct. */
  ghost predicate StructOk(s: Struct)
    decreases s
  {
    && Packed(s.members)
    && s.alignment >= MaxEffective(s.members)
    && s.size == AlignUp(EndOf(s.members), s.alignment)
    && forall i | 0 <= i < |s.members| :: ElementOk(s.members[i]) && (s.members[i].sub.Some? ==> StructOk(s.members[i].sub.value))
  }

  ghost predicate MembersOk(ms: seq<Element>) {
    forall i | 0 <= i < |ms| :: ElementOk(ms[i]) && (ms[i].sub.Some? ==> StructOk(ms[i].sub.value))
  }

  /** A member of basic type has this name. */
  predicate Named(ms: seq<Element>, n: string) {
    exists i | 0 <= i < |ms| :: ms[i].kind != Structure && ms[i].name == n
  }

  /** Members do not overlap, and follow one another. */
  lemma {:induction false} InOrder(ms: seq<Element>, i: nat, j: nat)
    requires Packed(ms) && i < j < |ms|
    ensures ms[i].offset + ms[i].size <= ms[j].offset
  {
    hide AlignUp, Effective;
    AlignUpBounds(EndOf(ms[..j]), Effective(ms[j]));
    assert ms[..j][j - 1] == ms[j - 1];
    if i < j - 1 {
      InOrder(ms, i, j - 1);
    }
  }

  /** Nothing reaches behind the end. */
  lemma Inside(ms: seq<Element>, i: nat)
    requires Packed(ms) && i < |ms|
    ensures ms[i].offset + ms[i].size <= EndOf(ms)
  {
    if i < |ms| - 1 {
      InOrder(ms, i, |ms| - 1);
    }
  }

  function ElementSize(e: Element): nat { if e.sub.Some? then e.sub.value.size else BasicSize(e.kind) }

  /** Where an element of an array member begins. */
  function ElementOffset(e: Element, ix: seq<nat>): nat
    requires |ix| == |e.arrays|
  {
    e.offset + Cell(ix, e.arrays) * ElementSize(e)
  }

  /** The elements of an array member lie inside it, each at its own place. */
  lemma ElementsInside(e: Element, ix: seq<nat>, jx: seq<nat>)
    requires ElementOk(e) && IsIndex(ix, e.arrays) && IsIndex(jx, e.arrays)
    ensures e.offset <= ElementOffset(e, ix) && ElementOffset(e, ix) + ElementSize(e) <= e.offset + e.size
    ensures ix != jx ==>
              || ElementOffset(e, ix) + ElementSize(e) <= ElementOffset(e, jx)
              || ElementOffset(e, jx) + ElementSize(e) <= ElementOffset(e, ix)
  {
    hide Times, Cell, BasicSize;
    var c, d, size := Cell(ix, e.arrays), Cell(jx, e.arrays), ElementSize(e);
    CellInside(size, e.arrays, ix);
    MulAdd(c, 1, size);
    MulAdd(d, 1, size);
    if c == d {
      CellsDiffer(e.arrays, ix, jx);
    } else if c < d {
      MulMonotone(c + 1, d, size);
    } else {
      MulMonotone(d + 1, c, size);
    }
  }

  /** Without a dimension of 0 the last element ends where the member ends. */
  lemma LastElement(e: Element) returns (ix: seq<nat>)
    requires ElementOk(e) && forall i | 0 <= i < |e.arrays| :: e.arrays[i] > 0
    ensures IsIndex(ix, e.arrays) && ElementOffset(e, ix) + ElementSize(e) == e.offset + e.size
  {
    hide Times, Cell, BasicSize;
    ix := LastCell(ElementSize(e), e.arrays);
    MulAdd(Cell(ix, e.arrays), 1, ElementSize(e));
  }

  /** Each offset is a multiple of the member's alignment, and the least one behind the members before it. */
  lemma LeastOffset(ms: seq<Element>, i: nat, m: nat)
    requires Packed(ms) && i < |ms|
    ensures Divides(Effective(ms[i]), ms[i].offset)
    ensures var end := if i == 0 then 0 else ms[i - 1].offset + ms[i - 1].size;
      end <= ms[i].offset && (end <= m && Divides(Effective(ms[i]), m) ==> ms[i].offset <= m)
  {
    hide AlignUp, Effective, Divides;
    assert i > 0 ==> ms[..i][i - 1] == ms[i - 1];
    AlignUpBounds(EndOf(ms[..i]), Effective(ms[i]));
    if EndOf(ms[..i]) <= m && Divides(Effective(ms[i]), m) {
      AlignUpLeast(EndOf(ms[..i]), Effective(ms[i]), m);
    }
  }

  // ----- Nested members -----

  /** A path picks a member, then a member of its struct, and so on. */
  predicate IsPath(s: Struct, path: seq<nat>) {
    path != [] && path[0] < |s.members|
    && (|path| > 1 ==> s.members[path[0]].sub.Some? && IsPath(s.members[path[0]].sub.value, path[1..]))
  }

  function At(s: Struct, path: seq<nat>): (e: Element)
    requires IsPath(s, path)
  {
    if |path| == 1 then s.members[path[0]] else At(s.members[path[0]].sub.value, path[1..])
  }

  /** Where the member lies in memory when the struct is at base. */
  function Address(s: Struct, base: nat, path: seq<nat>): nat
    requires IsPath(s, path)
  {
    var e := s.members[path[0]];
    if |path| == 1 then base + e.offset else Address(e.sub.value, base + e.offset, path[1..])
  }

  /** All alignments, at every depth, are powers of two. */
  ghost predicate PowersOfTwo(s: Struct)
    decreases s
  {
    IsPow2(s.alignment)
    && forall i | 0 <= i < |s.members| ::
      IsPow2(Effective(s.members[i])) && (s.members[i].sub.Some? ==> PowersOfTwo(s.members[i].sub.value))
  }

  /** A member of struct type has room for its struct: it is no array without elements, or the struct is empty. */
  predicate HasRoom(e: Element)
    requires e.sub.Some?
  {
    (forall i | 0 <= i < |e.arrays| :: e.arrays[i] > 0) || e.sub.value.size == 0
  }

  /** The members that the path leads through have room for their structs. Where it ends does not matter. */
  predicate RoomAbove(s: Struct, path: seq<nat>)
    requires IsPath(s, path)
  {
    |path| > 1 ==> HasRoom(s.members[path[0]]) && RoomAbove(s.members[path[0]].sub.value, path[1..])
  }

  lemma MemberAligned(s: Struct, base: nat, i: nat)
    requires StructOk(s) && PowersOfTwo(s) && i < |s.members| && Divides(s.alignment, base)
    ensures Divides(Effective(s.members[i]), base + s.members[i].offset)
  {
    hide Effective, Divides, AlignUp, IsPow2, Packed;
    var e := s.members[i];
    MaxBound(s.members, i);
    LeastOffset(s.members, i, 0);
    Pow2Divides(Effective(e), s.alignment);
    DividesTrans(Effective(e), s.alignment, base);
    DividesSum(Effective(e), base, e.offset);
  }

  lemma SubAligned(s: Struct, base: nat, i: nat)
    requires StructOk(s) && PowersOfTwo(s) && i < |s.members| && Divides(s.alignment, base) && s.members[i].sub.Some?
    ensures Divides(s.members[i].sub.value.alignment, base + s.members[i].offset)
    ensures StructOk(s.members[i].sub.value) && PowersOfTwo(s.members[i].sub.value)
  {
    hide Divides, AlignUp, IsPow2, Packed, BasicAlign, BasicSize, Times;
    var e := s.members[i];
    MemberAligned(s, base, i);
    Pow2Divides(e.sub.value.alignment, Effective(e));
    DividesTrans(e.sub.value.alignment, Effective(e), base + e.offset);
  }

  /** At every depth a member's address is a multiple of its alignment, if the outermost struct is aligned. */
  lemma {:induction false} NestedAligned(s: Struct, base: nat, path: seq<nat>)
    requires StructOk(s) && PowersOfTwo(s) && IsPath(s, path) && Divides(s.alignment, base)
    ensures Divides(Effective(At(s, path)), Address(s, base, path))
  {
    hide Divides, StructOk, PowersOfTwo, Effective;
    if |path| == 1 {
      MemberAligned(s, base, path[0]);
    } else {
      SubAligned(s, base, path[0]);
      NestedAligned(s.members[path[0]].sub.value, base + s.members[path[0]].offset, path[1..]);
    }
  }

  lemma {:induction false} TimesZero(size: nat, dims: seq<nat>, i: nat)
    requires i < |dims| && dims[i] == 0
    ensures Times(size, dims) == 0
  {
    if i < |dims| - 1 {
      TimesZero(size, dims[..|dims| - 1], i);
    }
  }

  /** A struct fits into the member that holds it if and only if the member has room for it. */
  lemma FitsIff(s: Struct, i: nat)
    requires StructOk(s) && i < |s.members| && s.members[i].sub.Some?
    ensures StructOk(s.members[i].sub.value)
    ensures s.members[i].sub.value.size <= s.members[i].size <==> HasRoom(s.members[i])
  {
    hide AlignUp, BasicAlign, BasicSize, Times;
    var e := s.members[i];
    if forall k | 0 <= k < |e.arrays| :: e.arrays[k] > 0 {
      TimesGrows(e.sub.value.size, e.arrays);
    } else {
      var k :| 0 <= k < |e.arrays| && e.arrays[k] == 0;
      TimesZero(e.sub.value.size, e.arrays, k);
    }
  }

  lemma MemberInside(s: Struct, i: nat)
    requires StructOk(s) && i < |s.members|
    ensures s.members[i].offset + s.members[i].size <= s.size
  {
    hide Divides, AlignUp, BasicAlign, BasicSize, Times;
    Inside(s.members, i);
    AlignUpBounds(EndOf(s.members), s.alignment);
  }

  /** At every depth a member lies inside the outermost struct, if the members above it have room for their structs. */
  lemma {:induction false} NestedInside(s: Struct, base: nat, path: seq<nat>)
    requires StructOk(s) && IsPath(s, path) && RoomAbove(s, path)
    ensures base <= Address(s, base, path) && Address(s, base, path) + At(s, path).size <= base + s.size
  {
    hide StructOk, HasRoom;
    var e := s.members[path[0]];
    MemberInside(s, path[0]);
    if |path| > 1 {
      FitsIff(s, path[0]);
      NestedInside(e.sub.value, base + e.offset, path[1..]);
    }
  }

  /** A struct of one member at offset 0 with an alignment of 4. */
  lemma Alone(s: Struct, e: Element)
    requires s.members == [e] && s.alignment == 4 && s.size == e.size && (e.size == 4 || e.size == 0)
    requires ElementOk(e) && e.offset == 0 && Effective(e) == 4 && (e.sub.Some? ==> StructOk(e.sub.value))
    ensures StructOk(s)
  {
    hide ElementOk, Effective, AlignUp, MaxEffective;
    AlignedFour(e.size);
    LargestAlone(e);
    assert s.members[..0] == [];
  }

  lemma AlignedFour(size: nat)
    requires size == 4 || size == 0
    ensures AlignUp(0, 4) == 0 && AlignUp(size, 4) == size
  {
  }

  lemma LargestAlone(e: Element)
    ensures MaxEffective([e]) == Max(1, Effective(e))
  {
    assert [e][..0] == [];
  }

  /** Without room it can fail: in B { A[0] a; } with A { i32 x; }, the member a.x ends behind B. */
  lemma NoRoomOutside() returns (b: Struct)
    ensures StructOk(b) && IsPath(b, [0, 0]) && At(b, [0, 0]).size == 4 && b.members[0].arrays == [0]
    ensures Address(b, 0, [0, 0]) + At(b, [0, 0]).size > b.size
  {
    hide StructOk, AlignUp, Packed, MaxEffective;
    var x := Element(I32, 4, 0, 1, "x", "", [], None, 0);
    var a := Struct("A", "", 4, 4, [x]);
    Alone(a, x);
    var e := Element(Structure, 0, 0, 4, "a", "", [0], Some(a), 0);
    b := Struct("B", "", 0, 4, [e]);
    assert e.arrays[..0] == [];
    Alone(b, e);
    assert [0, 0][1..] == [0] && IsPath(a, [0]);
  }

  // ----- The descriptor -----

  /** The names taken are those of the members of basic type. */
  ghost predicate NamesAre(names: set<string>, ms: seq<Element>) {
    forall n :: n in names <==> Named(ms, n)
  }

  datatype Outcome = Added | Ignored | Failed

  class StructDescriptor {
    const name: string
    const desc: string
    var structSize: nat
    var structAlignment: nat
    var maxMemberAlignment: nat
    var members: seq<Element>
    var memberNames: set<string>

    /** Members may be added until the descriptor is compiled. */
    ghost var compiled: bool

    ghost predicate Valid()
      reads this
    {
      && Packed(members) && MembersOk(members)
      && maxMemberAlignment == MaxEffective(members)
      && (!compiled ==> structSize == EndOf(members))
      && (compiled ==> StructOk(Snapshot()))
      && NamesAre(memberNames, members)
    }

    function Snapshot(): Struct
      reads this
    {
      Struct(name, desc, structSize, structAlignment, members)
    }

    constructor (name: string, desc: string, alignment: nat)
      ensures Valid() && !compiled && members == [] && structAlignment == alignment && this.name == name && this.desc == desc
    {
      this.name, this.desc := name, desc;
      structSize, structAlignment, maxMemberAlignment, members, memberNames := 0, alignment, 1, [], {};
      compiled := false;
    }

    /** A member placed behind the others. The names of basic members are remembered. */
    method Append(e: Element, align: nat)
      requires Valid() && !compiled && ElementOk(e) && (e.sub.Some? ==> StructOk(e.sub.value))
      requires align == Effective(e) > 0 && e.offset == AlignUp(structSize, align)
      modifies this`structSize, this`maxMemberAlignment, this`members, this`memberNames
      ensures Valid() && members == old(members) + [e]
    {
      hide Packed, MembersOk, NamesAre, AlignUp, EndOf, MaxEffective, ElementOk, Effective, StructOk;
      PackedMore(members, e);
      MembersMore(members, e);
      NamesMore(memberNames, members, e);
      members := members + [e];
      structSize := e.offset + e.size;
      maxMemberAlignment := Max(maxMemberAlignment, align);
      if e.kind != Structure {
        memberNames := memberNames + {e.name};
      }
    }

    /** Adds a member of a basic type, unless its name is taken by another one or there are 255 members already. */
    method AddNormalMember(kind: MemberType, name: string, desc: string, arrays: seq<nat>, alignment: nat, customData: nat)
      returns (r: Outcome)
      requires Valid() && !compiled
      modifies this`structSize, this`maxMemberAlignment, this`members, this`memberNames
      ensures Valid()
      ensures r == if Named(old(members), name) || |old(members)| >= 255 then Ignored
                   else if kind == Invalid || kind == Structure then Failed else Added
      ensures r != Added ==> members == old(members) && structSize == old(structSize)
      ensures r == Added ==>
                && |members| == |old(members)| + 1 && members[..|old(members)|] == old(members)
                && var e := members[|old(members)|];
                e.kind == kind && e.name == name && e.desc == desc && e.arrays == arrays
                && e.alignment == alignment && e.customData == customData && e.sub == None
    {
      hide Packed, MembersOk, Named, AlignUp, EndOf, MaxEffective, Times, BasicSize, BasicAlign, ElementOk, Effective,
        StructOk;
      if name in memberNames {
        return Ignored;
      }
      if |members| >= 255 {
        return Ignored;
      }
      if kind == Invalid || kind == Structure {
        return Failed;
      }
      BasicPositive(kind);
      var align := Max(BasicAlign(kind), alignment);
      var size := Times(BasicSize(kind), arrays);
      var e := Element(kind, size, AlignUp(structSize, align), alignment, name, desc, arrays, None, customData);
      NormalElement(e);
      Append(e, align);
      return Added;
    }

    /** Adds a member of struct type. Neither its name nor the number of members is checked. */
    method AddStructureMember(sub: Struct, name: string, desc: string, arrays: seq<nat>, alignment: nat, customData: nat)
      requires Valid() && !compiled && StructOk(sub)
      modifies this`structSize, this`maxMemberAlignment, this`members, this`memberNames
      ensures Valid()
      ensures |members| == |old(members)| + 1 && members[..|old(members)|] == old(members)
      ensures var e := members[|old(members)|];
        && e.kind == Structure && e.sub == Some(sub) && e.name == name && e.desc == desc && e.arrays == arrays
        && e.alignment == Max(sub.alignment, alignment) && e.customData == customData
    {
      hide Packed, MembersOk, Named, AlignUp, EndOf, MaxEffective, Times, BasicSize, StructOk;
      StructPositive(sub);
      var align := Max(sub.alignment, alignment);
      var size := Times(sub.size, arrays);
      Append(Element(Structure, size, AlignUp(structSize, align), align, name, desc, arrays, Some(sub), customData), align);
    }

    /** The size becomes a multiple of the largest alignment. */
    method Compile()
      requires Valid() && !compiled
      modifies this`structSize, this`structAlignment, this`compiled
      ensures Valid() && compiled
      ensures structAlignment == Max(old(structAlignment), MaxEffective(members))
      ensures structSize == AlignUp(EndOf(members), structAlignment)
    {
      hide Packed, NamesAre, AlignUp, EndOf, MaxEffective, ElementOk;
      structAlignment := Max(structAlignment, maxMemberAlignment);
      structSize := AlignUp(structSize, structAlignment);
      compiled := true;
    }
  }

  lemma PackedMore(ms: seq<Element>, e: Element)
    requires Packed(ms) && Effective(e) > 0 && e.offset == AlignUp(EndOf(ms), Effective(e))
    ensures Packed(ms + [e]) && EndOf(ms + [e]) == e.offset + e.size
    ensures MaxEffective(ms + [e]) == Max(MaxEffective(ms), Effective(e))
  {
    var more := ms + [e];
    assert more[..|ms|] == ms;
    forall i | 0 <= i < |more|
      ensures Effective(more[i]) > 0 && more[i].offset == AlignUp(EndOf(more[..i]), Effective(more[i]))
    {
      if i < |ms| {
        assert more[..i] == ms[..i];
      }
    }
  }

  lemma BasicPositive(kind: MemberType)
    requires kind != Invalid && kind != Structure
    ensures BasicAlign(kind) > 0
  {
  }

  lemma NormalElement(e: Element)
    requires e.kind != Invalid && e.kind != Structure && e.sub == None && e.size == Times(BasicSize(e.kind), e.arrays)
    ensures ElementOk(e) && Effective(e) == Max(BasicAlign(e.kind), e.alignment) > 0
  {
  }

  lemma StructPositive(s: Struct)
    requires StructOk(s)
    ensures s.alignment > 0
  {
  }

  lemma MembersMore(ms: seq<Element>, e: Element)
    requires MembersOk(ms) && ElementOk(e) && (e.sub.Some? ==> StructOk(e.sub.value))
    ensures MembersOk(ms + [e])
  {
    hide ElementOk;
  }

  lemma NamesMore(names: set<string>, ms: seq<Element>, e: Element)
    requires NamesAre(names, ms)
    ensures NamesAre(if e.kind != Structure then names + {e.name} else names, ms + [e])
  {
    var more := ms + [e];
    assert more[|ms|] == e;
    forall n
      ensures Named(more, n) <==> Named(ms, n) || (e.kind != Structure && e.name == n)
    {
      if Named(ms, n) {
        var i :| 0 <= i < |ms| && ms[i].kind != Structure && ms[i].name == n;
        assert more[i] == ms[i];
      }
    }
  }
}
