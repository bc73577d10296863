/** The dotted-name index of a layout, against a plain walk over the struct tree. */
module NameIndex {
  import opened Basics
  import opened DataTypes
  import opened StructLayout
  import opened Flatten

  // ----- Dotted names -----

  function DotAt(str: string): (d: nat)
    ensures d <= |str|
  {
    if str == "" || str[0] == '.' then 0 else 1 + DotAt(str[1..])
  }

  /** The part before the first dot. */
  function Head(str: string): string { str[..DotAt(str)] }

  predicate HasDot(str: string) { DotAt(str) < |str| }

  /** The part behind the first dot. */
  function Tail(str: string): string
    requires HasDot(str)
  {
    str[DotAt(str) + 1..]
  }

  predicate Dotless(name: string) { forall i | 0 <= i < |name| :: name[i] != '.' }

  lemma {:induction false} DotPlace(str: string, d: nat)
    requires d <= |str| && (forall i | 0 <= i < d :: str[i] != '.') && (d < |str| ==> str[d] == '.')
    ensures DotAt(str) == d
  {
    if d > 0 {
      DotPlace(str[1..], d - 1);
    }
  }

  lemma {:induction false} DotIsFirst(str: string)
    ensures forall i | 0 <= i < DotAt(str) :: str[i] != '.'
    ensures HasDot(str) ==> str[DotAt(str)] == '.'
  {
    if str != "" && str[0] != '.' {
      DotIsFirst(str[1..]);
    }
  }

  /** A string begins with a dotless name and a dot exactly when that name is its head and something follows. */
  lemma BeginsWith(str: string, name: string)
    requires Dotless(name)
    ensures name + ['.'] <= str <==> HasDot(str) && Head(str) == name
    ensures name + ['.'] <= str ==> Tail(str) == str[|name| + 1..]
    ensures str == name <==> !HasDot(str) && Head(str) == name
  {
    DotIsFirst(str);
    if name + ['.'] <= str {
      assert str[..|name| + 1] == name + ['.'];
      assert str[|name|] == '.';
      assert forall i | 0 <= i < |name| :: str[i] == str[..|name| + 1][i] == name[i];
      DotPlace(str, |name|);
      assert str[..|name|] == name;
    } else if str == name {
      DotPlace(str, |name|);
    }
  }

  // ----- The plain walk -----

  datatype Place = Place(address: nat, idx: nat)

  /** The first of the members with this name. */
  function MemberNamed(ms: seq<Element>, name: string): (r: Option<nat>)
    ensures r.Some? ==> r.value < |ms| && ms[r.value].name == name
  {
    if ms == [] then None
    else if ms[0].name == name then Some(0)
    else match MemberNamed(ms[1..], name) { case None => None case Some(i) => Some(i + 1) }
  }

  /** Names within one struct are distinct and have no dots, at every depth. */
  predicate NamesOk(s: Struct)
    decreases s
  {
    && (forall i, j | 0 <= i < j < |s.members| :: s.members[i].name != s.members[j].name)
    && (forall i | 0 <= i < |s.members| :: Dotless(s.members[i].name))
    && forall i | 0 <= i < |s.members| :: s.members[i].sub.Some? ==> NamesOk(s.members[i].sub.value)
  }

  /**
   Walks down from a struct at base, whose records begin at first: a name picks a member, and a dot goes on into its
   struct, unless the member is an array. The address is the sum of the offsets on the way.
   */
  function Find(s: Struct, base: nat, first: nat, str: string): (p: Option<Place>)
    decreases s
  {
    match MemberNamed(s.members, Head(str))
    case None => None
    case Some(i) =>
      var e := s.members[i];
      if !HasDot(str) then Some(Place(base + e.offset, first + i))
      else if e.arrays != [] || e.sub.None? then None
      else Find(e.sub.value, base + e.offset, BlockStart(s, first, i), Tail(str))
  }

  lemma {:induction false} MemberNamedIs(ms: seq<Element>, i: nat)
    requires i < |ms| && forall k | 0 <= k < i :: ms[k].name != ms[i].name
    ensures MemberNamed(ms, ms[i].name) == Some(i)
  {
    if i > 0 {
      MemberNamedIs(ms[1..], i - 1);
    }
  }

  // ----- What the index holds -----

  function Value(m: map<string, Place>, key: string): Option<Place> {
    if key in m then Some(m[key]) else None
  }

  /** What the walk finds when only the first n members are there. */
  function FindBelow(s: Struct, base: nat, first: nat, n: nat, str: string): Option<Place> {
    match MemberNamed(s.members, Head(str))
    case None => None
    case Some(i) => if i < n then Find(s, base, first, str) else None
  }

  /** m' is m with every name the walk finds, behind the prefix. */
  function Entry(m: map<string, Place>, prefix: string, s: Struct, base: nat, first: nat, n: nat, key: string): Option<Place> {
    if prefix <= key && FindBelow(s, base, first, n, key[|prefix|..]).Some?
    then FindBelow(s, base, first, n, key[|prefix|..])
    else Value(m, key)
  }

  ghost predicate Adds(m: map<string, Place>, m': map<string, Place>, prefix: string, s: Struct, base: nat, first: nat, n: nat) {
    forall key :: Value(m', key) == Entry(m, prefix, s, base, first, n, key)
  }

  lemma PrefixSplit(prefix: string, name: string, key: string)
    ensures prefix + name + ['.'] <= key <==> prefix <= key && name + ['.'] <= key[|prefix|..]
    ensures prefix + name + ['.'] <= key ==> key[|prefix + name + ['.']|..] == key[|prefix|..][|name| + 1..]
    ensures key == prefix + name <==> prefix <= key && key[|prefix|..] == name
  {
    if prefix + name + ['.'] <= key {
      assert key[..|prefix|] == (prefix + name + ['.'])[..|prefix|] == prefix;
      assert key[|prefix|..][..|name| + 1] == (prefix + name + ['.'])[|prefix|..] == name + ['.'];
    }
    if prefix <= key && name + ['.'] <= key[|prefix|..] {
      assert key == prefix + key[|prefix|..];
      Assoc(prefix, name, ['.']);
      assert key[..|prefix + name + ['.']|] == prefix + key[|prefix|..][..|name| + 1];
    }
    if key == prefix + name {
      TakeDrop(prefix, name);
    }
    if prefix <= key && key[|prefix|..] == name {
      assert key == prefix + key[|prefix|..];
    }
  }

  /** One more member: its own name, then the names inside it. */
  lemma OneMember(m: map<string, Place>, m1: map<string, Place>, m3: map<string, Place>, prefix: string,
                  s: Struct, base: nat, first: nat, i: nat)
    requires NamesOk(s) && i < |s.members| && Adds(m, m1, prefix, s, base, first, i)
    requires var e := s.members[i];
      var m2 := m1[prefix + e.name := Place(base + e.offset, first + i)];
      if e.arrays != [] || e.sub.None? then m3 == m2
      else Adds(m2, m3, prefix + e.name + ['.'], e.sub.value, base + e.offset, BlockStart(s, first, i), |e.sub.value.members|)
    ensures Adds(m, m3, prefix, s, base, first, i + 1)
  {
    hide NamesOk, MemberNamed, Find, Adds, BlockStart;
    forall key
      ensures Value(m3, key) == Entry(m, prefix, s, base, first, i + 1, key)
    {
      OneKey(m, m1, m3, prefix, s, base, first, i, key);
    }
    AddsIs(m, m3, prefix, s, base, first, i + 1);
  }

  lemma AddsIs(m: map<string, Place>, m': map<string, Place>, prefix: string, s: Struct, base: nat, first: nat, n: nat)
    requires forall key :: Value(m', key) == Entry(m, prefix, s, base, first, n, key)
    ensures Adds(m, m', prefix, s, base, first, n)
  {
  }

  lemma AddsAt(m: map<string, Place>, m': map<string, Place>, prefix: string, s: Struct, base: nat, first: nat, n: nat, key: string)
    requires Adds(m, m', prefix, s, base, first, n)
    ensures Value(m', key) == Entry(m, prefix, s, base, first, n, key)
  {
  }

  lemma OnlyMember(s: Struct, i: nat)
    requires NamesOk(s) && i < |s.members|
    ensures MemberNamed(s.members, s.members[i].name) == Some(i) && Dotless(s.members[i].name)
  {
    MemberNamedIs(s.members, i);
  }

  lemma FindAll(s: Struct, base: nat, first: nat, str: string)
    ensures FindBelow(s, base, first, |s.members|, str) == Find(s, base, first, str)
  {
  }

  /** Where the walk goes when the head picks member i. */
  lemma FindAt(s: Struct, base: nat, first: nat, i: nat, str: string)
    requires i < |s.members| && MemberNamed(s.members, Head(str)) == Some(i)
    ensures var e := s.members[i];
      Find(s, base, first, str)
      == if !HasDot(str) then Some(Place(base + e.offset, first + i))
         else if e.arrays != [] || e.sub.None? then None
         else Find(e.sub.value, base + e.offset, BlockStart(s, first, i), Tail(str))
  {
  }

  lemma OneKey(m: map<string, Place>, m1: map<string, Place>, m3: map<string, Place>, prefix: string,
               s: Struct, base: nat, first: nat, i: nat, key: string)
    requires NamesOk(s) && i < |s.members| && Adds(m, m1, prefix, s, base, first, i)
    requires var e := s.members[i];
      var m2 := m1[prefix + e.name := Place(base + e.offset, first + i)];
      if e.arrays != [] || e.sub.None? then m3 == m2
      else Adds(m2, m3, prefix + e.name + ['.'], e.sub.value, base + e.offset, BlockStart(s, first, i), |e.sub.value.members|)
    ensures Value(m3, key) == Entry(m, prefix, s, base, first, i + 1, key)
  {
    hide NamesOk, MemberNamed, Adds, BlockStart, Dotless, Head, HasDot, Tail, DotAt, Find;
    var e := s.members[i];
    var m2 := m1[prefix + e.name := Place(base + e.offset, first + i)];
    OnlyMember(s, i);
    AddsAt(m, m1, prefix, s, base, first, i, key);
    PrefixSplit(prefix, e.name, key);
    if e.arrays == [] && e.sub.Some? {
      AddsAt(m2, m3, prefix + e.name + ['.'], e.sub.value, base + e.offset, BlockStart(s, first, i), |e.sub.value.members|, key);
    }
    if prefix <= key {
      var str := key[|prefix|..];
      BeginsWith(str, e.name);
      if Head(str) == e.name {
        FindAt(s, base, first, i, str);
        if HasDot(str) && e.arrays == [] && e.sub.Some? {
          FindAll(e.sub.value, base + e.offset, BlockStart(s, first, i), Tail(str));
        }
      }
    }
  }
}
