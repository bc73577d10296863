/**
 Texts with too few blanks behind an opening brace. The first member is then read from before the brace, so that the name of
 its type ends before the brace: it is shorter than the one that is written.
 */
module Crowded {
  import opened Basics
  import opened DataTypes
  import opened Lexer
  import opened Reader
  import opened Syntax

  // ----- Where putting back twice leads -----

  /** A name read from before x, where neither a blank nor a part of a name stands, ends before x. */
  lemma NameStops(code: string, c: nat, x: nat)
    requires c <= x < |code| && !IsSpace(code[x]) && !IsIdentifierChar(code[x]) && ReadName(code, c).Some?
    ensures |ReadName(code, c).value.0| <= x - c
  {
    var s := SkipSpace(code, c);
    TokenLength(code, s);
    var q := ReadName(code, c).value.1;
    assert forall i | s <= i < q :: IsIdentifierChar(code[i]);
  }

  lemma MarkStands(code: string, p: nat, c: char)
    requires p <= |code| && Lex(code, p).Some? && Lex(code, p).value.0 == Mark(c)
    ensures var q := Lex(code, p).value.1; q > 0 && code[q - 1] == c
  {
  }

  lemma FirstMemberRead(code: string, p: nat, known: set<string>)
    requires ReadMembers(code, p, known).Some?
    ensures p <= |code| && ReadName(code, p).Some?
    ensures var ms := ReadMembers(code, p, known).value.0; ms != [] && ms[0].typeName == ReadName(code, p).value.0
  {
    hide Lex;
  }

  /** Without room, the type that is read first is shorter than the one that stands behind the brace. */
  lemma CrowdedBody(code: string, p: nat, known: set<string>)
    requires 0 < p <= |code| < TWO_32 && code[p - 1] == '{'
    requires Lex(code, p).Some? && Lex(code, p).value.0.kind == Identifier && |Lex(code, p).value.0.text| <= p
    requires !Room(code, p, |Lex(code, p).value.0.text|) && ReadBody(code, p, known).Some?
    ensures var ms := ReadBody(code, p, known).value.0;
      ms != [] && |ms[0].typeName| < |Lex(code, p).value.0.text|
  {
    hide Lex, SkipSpace, ReadMembers;
    UndoIsExact(code, p);
    TokenFacts(code, p);
    var c := Hop(code, p);
    FirstMemberRead(code, c, known);
    NameStops(code, c, p - 1);
  }

  // ----- A type's name is shorter than the text before it -----

  lemma BasicNamesShort(s: string)
    requires TypeNamed(s) != Invalid
    ensures |s| <= 9
  {
  }

  lemma {:induction false} EndsGrow(code: string, ts: seq<Token>, es: seq<nat>, i: nat, j: nat)
    requires Lexed(code, ts, es) && i <= j <= |ts|
    ensures es[i] <= es[j] <= |code|
    decreases j - i
  {
    hide Lex;
    if i < j {
      EndsGrow(code, ts, es, i, j - 1);
      assert Lex(code, es[j - 1]) == Some((ts[j - 1], es[j]));
    }
  }

  /** Two names are apart by a blank. */
  lemma NamesApart(code: string, p: nat)
    requires p <= |code| && Lex(code, p).Some? && Lex(code, p).value.0.kind == Identifier
    requires ReadName(code, Lex(code, p).value.1).Some?
    ensures p + |Lex(code, p).value.0.text| <= Lex(code, p).value.1
    ensures var (name, q) := ReadName(code, Lex(code, p).value.1).value; Lex(code, p).value.1 + 1 + |name| <= q
  {
    var q := Lex(code, p).value.1;
    TokenLength(code, SkipSpace(code, p));
    TokenLength(code, SkipSpace(code, q));
    DigitsAreNoBlanks(code[SkipSpace(code, q)]);
  }

  predicate AllShort(names: set<string>, n: nat) { forall name <- names :: |name| <= n }

  /** The head of a struct is longer than any basic type's name, and than the struct's own name. */
  lemma HeadLength(code: string, ts: seq<Token>, es: seq<nat>, i: nat, d: StructForm)
    requires Lexed(code, ts, es) && Has(ts, i, HeadTokens(d)) && IsName(d.name)
    ensures var b := i + |HeadTokens(d)|;
      && b < |es| && es[b] <= |code| && es[i] + 9 <= es[b] && es[i] + |d.name| <= es[b] && code[es[b] - 1] == '{'
  {
    hide Lex, DescTokens, AlignmentTokens, IsName;
    var b := i + |HeadTokens(d)|;
    HasSplit(ts, i, [Token(STRUCT, Identifier), Token(d.name, Identifier)], TailTokens(d.desc, d.alignment, '{'));
    HasTwo(ts, i, Token(STRUCT, Identifier), Token(d.name, Identifier));
    LastOfTail(ts, i + 2, d);
    assert Lex(code, es[i]) == Some((ts[i], es[i + 1])) && Lex(code, es[i + 1]) == Some((ts[i + 1], es[i + 2]));
    NamesApart(code, es[i]);
    EndsGrow(code, ts, es, i + 2, b - 1);
    assert Lex(code, es[b - 1]) == Some((ts[b - 1], es[b]));
    MarkStands(code, es[b - 1], '{');
    TokenFacts(code, es[b - 1]);
    NotEmpty(d.name);
  }

  lemma LastOfTail(ts: seq<Token>, i: nat, d: StructForm)
    requires Has(ts, i, TailTokens(d.desc, d.alignment, '{'))
    ensures var b := i + |TailTokens(d.desc, d.alignment, '{')|; i < b <= |ts| && ts[b - 1] == Mark('{')
  {
    HasSplit(ts, i, DescTokens(d.desc), AlignmentTokens(d.alignment) + [Mark('{')]);
    HasSplit(ts, i + |DescTokens(d.desc)|, AlignmentTokens(d.alignment), [Mark('{')]);
    HasOne(ts, i + |DescTokens(d.desc)| + |AlignmentTokens(d.alignment)|, Mark('{'));
  }

  lemma NotEmpty(name: string)
    requires IsName(name)
    ensures |name| > 0
  {
  }

  lemma TypeFits(typeName: string, known: set<string>, n: nat)
    requires TypeKnown(typeName, known) && AllShort(known, n)
    ensures |typeName| <= n + 9
  {
    if TypeNamed(typeName) != Invalid {
      BasicNamesShort(typeName);
    }
  }

  // ----- Programs -----

  /** A struct without room that is read at all begins with a type of a shorter name. */
  lemma CrowdedStruct(code: string, ts: seq<Token>, es: seq<nat>, i: nat, d: StructForm, known: set<string>)
    requires Lexed(code, ts, es) && Has(ts, i, StructTokens(d)) && StructOk(d, known) && |code| < TWO_32
    requires i + |HeadTokens(d)| < |es| && es[i + |HeadTokens(d)|] <= |code| && AllShort(known, es[i])
    requires !Room(code, es[i + |HeadTokens(d)|], |d.members[0].typeName|)
    ensures es[i] <= |code| && ReadStruct(code, es[i], known) != AtEnd
    ensures var r := ReadStruct(code, es[i], known);
      r.Found? ==> r.def.members != [] && |r.def.members[0].typeName| < |d.members[0].typeName|
  {
    hide Lex, HeadTokens, MemberTokens, MemberOk, Room, ReadBody, ReadHead, AlignmentOf, TypeKnown, IsName, AllShort;
    var b := i + |HeadTokens(d)|;
    var m := d.members[0];
    HasSplit(ts, i, HeadTokens(d), MembersTokens(d.members));
    HeadRead(code, ts, es, i, d, known);
    HeadLength(code, ts, es, i, d);
    HereMember(code, ts, es, b, m, MembersTokens(d.members[1..]), known);
    TypeOfMember(m, known);
    TypeFits(m.typeName, known, es[i]);
    if ReadBody(code, es[b], known).Some? {
      CrowdedBody(code, es[b], known);
    }
  }

  lemma TypeOfMember(m: MemberForm, known: set<string>)
    requires MemberOk(m, known)
    ensures TypeKnown(m.typeName, known)
  {
  }

  /** What stands behind a struct: the next one, in a longer text, with one more name known. */
  lemma NextStruct(code: string, ts: seq<Token>, es: seq<nat>, i: nat, d: StructForm, known: set<string>)
    requires Lexed(code, ts, es) && Has(ts, i, StructTokens(d)) && StructOk(d, known) && AllShort(known, es[i])
    ensures var b, e := i + |HeadTokens(d)|, i + |StructTokens(d)|;
      && b <= e < |es| && es[b] <= |code| && AllShort(known + {d.name}, es[e]) && d.members != []
  {
    hide Lex, HeadTokens, MembersTokens, MemberOk, IsName;
    var b, e := i + |HeadTokens(d)|, i + |StructTokens(d)|;
    HasSplit(ts, i, HeadTokens(d), MembersTokens(d.members));
    HeadLength(code, ts, es, i, d);
    EndsGrow(code, ts, es, b, e);
  }

  /** Two programs agree up to struct k, which in the first begins with a type of a shorter name. */
  predicate ShorterAt(out: seq<StructDef>, defs: seq<StructDef>, k: nat) {
    && k < |out| && k < |defs| && out[..k] == defs[..k] && out[k].members != [] && defs[k].members != []
    && |out[k].members[0].typeName| < |defs[k].members[0].typeName|
  }

  /** Without room behind every brace, what is read differs from what is written, in a first struct that lacks room. */
  lemma {:induction false} CrowdedProgram(code: string, ts: seq<Token>, es: seq<nat>, i: nat, ds: seq<StructForm>, known: set<string>)
    returns (k: nat)
    requires Lexed(code, ts, es) && Has(ts, i, ProgramTokens(ds)) && ProgramOk(ds, known) && |code| < TWO_32
    requires AllShort(known, es[i]) && !AllRoom(code, es, i, ds)
    requires es[i] <= |code| && ReadProgram(code, es[i], known).Some?
    ensures ShorterAt(ReadProgram(code, es[i], known).value, ProgramMeans(ds), k)
    decreases |ds|
  {
    hide Lex, StructTokens, HeadTokens, StructOk, ReadStruct, StructMeans, Substrings, Room, AllShort;
    var d, e := ds[0], i + |StructTokens(ds[0])|;
    HasSplit(ts, i, StructTokens(d), ProgramTokens(ds[1..]));
    NextStruct(code, ts, es, i, d, known);
    var out, defs := ReadProgram(code, es[i], known).value, ProgramMeans(ds);
    if Room(code, es[i + |HeadTokens(d)|], |d.members[0].typeName|) {
      StructRead(code, ts, es, i, d, known);
      SameName(d);
      var k' := CrowdedProgram(code, ts, es, e, ds[1..], known + {d.name});
      k := k' + 1;
      ShorterBehind(StructMeans(d), ReadProgram(code, es[e], known + {d.name}).value, ProgramMeans(ds[1..]), k');
    } else {
      CrowdedStruct(code, ts, es, i, d, known);
      MeansFirst(d);
      k := 0;
    }
  }

  lemma ShorterBehind(d: StructDef, out: seq<StructDef>, defs: seq<StructDef>, k: nat)
    requires ShorterAt(out, defs, k)
    ensures ShorterAt([d] + out, [d] + defs, k + 1)
  {
    assert ([d] + out)[..k + 1] == [d] + out[..k] && ([d] + defs)[..k + 1] == [d] + defs[..k];
  }

  lemma SameName(d: StructForm)
    ensures StructMeans(d).name == d.name
  {
  }

  lemma MeansFirst(d: StructForm)
    requires d.members != []
    ensures StructMeans(d).members != [] && StructMeans(d).members[0].typeName == d.members[0].typeName
  {
  }

  /** The same for the whole text. */
  lemma CrowdedFails(code: string, ds: seq<StructForm>, es: seq<nat>) returns (k: nat)
    requires Lexed(code, ProgramTokens(ds), es) && ProgramOk(ds, {}) && |code| < TWO_32
    requires !AllRoom(code, es, 0, ds) && ReadProgram(code, 0, {}).Some?
    ensures ShorterAt(ReadProgram(code, 0, {}).value, ProgramMeans(ds), k)
  {
    hide Lex, AllRoom, ReadProgram, ProgramMeans, ProgramOk, ShorterAt;
    var ts := ProgramTokens(ds);
    assert ts[0..0 + |ts|] == ts;
    k := CrowdedProgram(code, ts, es, 0, ds, {});
  }

  /**
   A text of these definitions, in whatever way it is written, is read back as just these definitions if and only if
   behind every opening brace stand at least as many blanks as the name of the first member's type is long.
   */
  lemma ReadsBackIff(code: string, ds: seq<StructForm>, es: seq<nat>)
    requires Lexed(code, ProgramTokens(ds), es) && ProgramOk(ds, {}) && |code| < TWO_32
    ensures ReadProgram(code, 0, {}) == Some(ProgramMeans(ds)) <==> AllRoom(code, es, 0, ds)
  {
    hide Lex, AllRoom, ReadProgram, ProgramMeans, ProgramOk, ProgramTokens;
    if AllRoom(code, es, 0, ds) {
      ReadsBack(code, ds, es);
    } else if ReadProgram(code, 0, {}).Some? {
      var k := CrowdedFails(code, ds, es);
    }
  }
}
