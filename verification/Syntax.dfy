/** What may be written: definitions with their optional parts, as tokens, and reading them back. */
module Syntax {
  import opened Basics
  import opened DataTypes
  import opened Lexer
  import opened Reader

  // ----- Definitions as they are written -----

  /** An integer as it is written, perhaps with leading zeros. */
  type IntText = t: string | t != "" && IsDigits(t) witness ['0']

  /** Dimensions may be missing, be empty, or end with a comma; description and alignment may be missing. */
  datatype MemberForm = MemberForm(typeName: string, dims: Option<seq<IntText>>, comma: bool, name: string,
                                   desc: Option<string>, alignment: Option<IntText>)
  datatype StructForm = StructForm(name: string, desc: Option<string>, alignment: Option<IntText>, members: seq<MemberForm>)

  function Mark(c: char): Token { Token([c], Other) }

  function DimTokens(dims: seq<IntText>, comma: bool): seq<Token> {
    if dims == [] then [Mark(']')]
    else if |dims| == 1 && !comma then [Token(dims[0], Int), Mark(']')]
    else [Token(dims[0], Int), Mark(',')] + DimTokens(dims[1..], comma)
  }

  function ArrayTokens(dims: Option<seq<IntText>>, comma: bool): seq<Token> {
    if dims.None? then [] else [Mark('[')] + DimTokens(dims.value, comma)
  }

  function DescTokens(desc: Option<string>): seq<Token> {
    if desc.None? then [] else [Token(desc.value, String)]
  }

  function AlignmentTokens(alignment: Option<IntText>): seq<Token> {
    if alignment.None? then [] else [Token(alignment.value, Int)]
  }

  function TailTokens(desc: Option<string>, alignment: Option<IntText>, mark: char): seq<Token> {
    DescTokens(desc) + (AlignmentTokens(alignment) + [Mark(mark)])
  }

  function FrontTokens(m: MemberForm): seq<Token> {
    [Token(m.typeName, Identifier)] + (ArrayTokens(m.dims, m.comma) + [Token(m.name, Identifier)])
  }

  function MemberTokens(m: MemberForm): seq<Token> {
    FrontTokens(m) + TailTokens(m.desc, m.alignment, ';')
  }

  function MembersTokens(ms: seq<MemberForm>): seq<Token> {
    if ms == [] then [Mark('}')] else MemberTokens(ms[0]) + MembersTokens(ms[1..])
  }

  function HeadTokens(d: StructForm): seq<Token> {
    [Token(STRUCT, Identifier), Token(d.name, Identifier)] + TailTokens(d.desc, d.alignment, '{')
  }

  function StructTokens(d: StructForm): seq<Token> {
    HeadTokens(d) + MembersTokens(d.members)
  }

  function ProgramTokens(ds: seq<StructForm>): seq<Token> {
    if ds == [] then [] else StructTokens(ds[0]) + ProgramTokens(ds[1..])
  }

  // ----- What they mean -----

  predicate IntOk(text: IntText) { Number(text) <= MAX_INT }

  predicate DimsOk(dims: seq<IntText>) { forall i | 0 <= i < |dims| :: IntOk(dims[i]) }

  predicate TailOk(alignment: Option<IntText>) { alignment.Some? ==> IntOk(alignment.value) }

  predicate MemberOk(m: MemberForm, known: set<string>) {
    && IsName(m.typeName) && TypeKnown(m.typeName, known) && IsName(m.name)
    && (m.dims.Some? ==> DimsOk(m.dims.value)) && TailOk(m.alignment)
  }

  predicate StructOk(d: StructForm, known: set<string>) {
    && IsName(d.name) && d.name !in known && TailOk(d.alignment)
    && d.members != [] && forall i | 0 <= i < |d.members| :: MemberOk(d.members[i], known)
  }

  /** Every struct has a new name, and its members are of basic types or structs defined before it. */
  predicate ProgramOk(ds: seq<StructForm>, known: set<string>) {
    ds != [] ==> StructOk(ds[0], known) && ProgramOk(ds[1..], known + {ds[0].name})
  }

  function Numbers(dims: seq<IntText>): seq<nat> {
    if dims == [] then [] else [Number(dims[0])] + Numbers(dims[1..])
  }

  function DescOf(desc: Option<string>): string { if desc.None? then "" else desc.value }

  /** An alignment is kept as 16 bits, and is 1 if none is written. */
  function AlignmentOf(alignment: Option<IntText>): nat {
    if alignment.None? then 1 else Number(alignment.value) % 65536
  }

  function MemberMeans(m: MemberForm): MemberDef {
    MemberDef(m.typeName, if m.dims.None? then [] else Numbers(m.dims.value), m.name, DescOf(m.desc), AlignmentOf(m.alignment))
  }

  function MembersMean(ms: seq<MemberForm>): seq<MemberDef> {
    if ms == [] then [] else [MemberMeans(ms[0])] + MembersMean(ms[1..])
  }

  function StructMeans(d: StructForm): StructDef {
    StructDef(d.name, DescOf(d.desc), AlignmentOf(d.alignment), MembersMean(d.members))
  }

  function ProgramMeans(ds: seq<StructForm>): seq<StructDef> {
    if ds == [] then [] else [StructMeans(ds[0])] + ProgramMeans(ds[1..])
  }

  // ----- Texts with these tokens -----

  /** The text consists of these tokens, token i read from es[i], with any blanks around them. */
  ghost predicate Lexed(code: string, ts: seq<Token>, es: seq<nat>) {
    && |es| == |ts| + 1 && es[0] == 0
    && (forall i | 0 <= i <= |ts| :: es[i] <= |code|)
    && (forall i | 0 <= i < |ts| :: Lex(code, es[i]) == Some((ts[i], es[i + 1])))
    && Lex(code, es[|ts|]).Some? && Lex(code, es[|ts|]).value.0.kind == EndOfCode
  }

  predicate Has(ts: seq<Token>, i: nat, part: seq<Token>) {
    i + |part| <= |ts| && ts[i..i + |part|] == part
  }

  lemma HasSplit(ts: seq<Token>, i: nat, a: seq<Token>, b: seq<Token>)
    requires Has(ts, i, a + b)
    ensures Has(ts, i, a) && Has(ts, i + |a|, b)
  {
    assert ts[i..i + |a|] == (a + b)[..|a|];
    assert ts[i + |a|..i + |a| + |b|] == (a + b)[|a|..];
  }

  lemma HasFirst(ts: seq<Token>, i: nat, t: Token, rest: seq<Token>)
    requires Has(ts, i, [t] + rest)
    ensures i < |ts| && ts[i] == t && Has(ts, i + 1, rest)
  {
    HasSplit(ts, i, [t], rest);
    assert ts[i..i + 1][0] == t;
  }

  lemma HasOne(ts: seq<Token>, i: nat, t: Token)
    requires Has(ts, i, [t])
    ensures i < |ts| && ts[i] == t
  {
    assert ts[i..i + 1][0] == t;
  }

  lemma HasTwo(ts: seq<Token>, i: nat, t: Token, u: Token)
    requires Has(ts, i, [t, u])
    ensures i + 1 < |ts| && ts[i] == t && ts[i + 1] == u
  {
    assert ts[i..i + 2][0] == t && ts[i..i + 2][1] == u;
  }

  /** From p the next token is number i. */
  ghost predicate Here(code: string, ts: seq<Token>, es: seq<nat>, i: nat, p: nat) {
    Lexed(code, ts, es) && i < |ts| && p <= |code| && Lex(code, p) == Some((ts[i], es[i + 1]))
  }

  lemma HereAt(code: string, ts: seq<Token>, es: seq<nat>, i: nat)
    requires Lexed(code, ts, es) && i < |ts|
    ensures es[i] <= |code| && Here(code, ts, es, i, es[i])
  {
  }

  lemma HereAgain(code: string, ts: seq<Token>, es: seq<nat>, i: nat, p: nat)
    requires Here(code, ts, es, i, p) && ts[i].kind != String
    ensures Here(code, ts, es, i, Undo(code, p))
  {
    hide Lex;
    UndoIsExact(code, p);
  }

  // ----- Reading them back -----

  lemma IntHere(code: string, ts: seq<Token>, es: seq<nat>, i: nat, text: IntText, next: Token)
    requires Lexed(code, ts, es) && Has(ts, i, [Token(text, Int), next])
    ensures i + 2 < |es| && es[i] <= |code| && es[i + 1] <= |code|
    ensures Lex(code, es[i]) == Some((Token(text, Int), es[i + 1])) && IntValue(code, es[i]) == Number(text)
    ensures Lex(code, es[i + 1]) == Some((next, es[i + 2]))
  {
    hide Lex, Number, IsDigits;
    assert [Token(text, Int), next] == [Token(text, Int)] + ([next] + []);
    HasFirst(ts, i, Token(text, Int), [next] + []);
    HasFirst(ts, i + 1, next, []);
  }

  lemma NotBracket(text: IntText)
    ensures text != [']']
  {
    assert IsNumber(text[0]);
  }

  lemma {:induction false} DimsRead(code: string, ts: seq<Token>, es: seq<nat>, i: nat, dims: seq<IntText>, comma: bool)
    requires Lexed(code, ts, es) && Has(ts, i, DimTokens(dims, comma)) && DimsOk(dims)
    ensures i + |DimTokens(dims, comma)| < |es|
    ensures es[i] <= |code| && ReadDims(code, es[i]) == Some((Numbers(dims), es[i + |DimTokens(dims, comma)|]))
    decreases |dims|
  {
    hide Lex, Number, IsDigits, IntValue, Lexed, Has;
    LexedAt(code, ts, es, i);
    if dims == [] {
      BracketHere(code, ts, es, i);
    } else if |dims| == 1 && !comma {
      NotBracket(dims[0]);
      IntHere(code, ts, es, i, dims[0], Mark(']'));
      assert dims[1..] == [] && Numbers(dims) == [Number(dims[0])];
    } else {
      var rest := DimTokens(dims[1..], comma);
      NotBracket(dims[0]);
      HasSplit(ts, i, [Token(dims[0], Int), Mark(',')], rest);
      IntHere(code, ts, es, i, dims[0], Mark(','));
      assert DimsOk(dims[1..]) && IntOk(dims[0]);
      DimsRead(code, ts, es, i + 2, dims[1..], comma);
      assert i + |DimTokens(dims, comma)| == i + 2 + |rest|;
    }
  }

  lemma BracketHere(code: string, ts: seq<Token>, es: seq<nat>, i: nat)
    requires Lexed(code, ts, es) && Has(ts, i, [Mark(']')])
    ensures i + 1 < |es| && es[i] <= |code| && Lex(code, es[i]) == Some((Mark(']'), es[i + 1]))
  {
    hide Lex;
    HasFirst(ts, i, Mark(']'), []);
  }

  lemma LexedAt(code: string, ts: seq<Token>, es: seq<nat>, i: nat)
    requires Lexed(code, ts, es)
    ensures |es| == |ts| + 1 && (i < |es| ==> es[i] <= |code|)
  {
  }

  lemma ArrayRead(code: string, ts: seq<Token>, es: seq<nat>, i: nat, dims: Option<seq<IntText>>, comma: bool, name: Token)
    returns (q: nat)
    requires Lexed(code, ts, es) && Has(ts, i, ArrayTokens(dims, comma) + [name]) && name.kind == Identifier && name.text != ['[']
    requires dims.Some? ==> DimsOk(dims.value)
    ensures es[i] <= |code| && ReadArray(code, es[i]) == Some((if dims.None? then [] else Numbers(dims.value), q))
    ensures Here(code, ts, es, i + |ArrayTokens(dims, comma)|, q) && ts[i + |ArrayTokens(dims, comma)|] == name
  {
    hide Lex, DimTokens, Numbers, ReadDims;
    HasSplit(ts, i, ArrayTokens(dims, comma), [name]);
    HasFirst(ts, i + |ArrayTokens(dims, comma)|, name, []);
    HereAt(code, ts, es, i);
    if dims.None? {
      HereAgain(code, ts, es, i, es[i]);
      q := Undo(code, es[i]);
    } else {
      HasFirst(ts, i, Mark('['), DimTokens(dims.value, comma));
      DimsRead(code, ts, es, i + 1, dims.value, comma);
      q := es[i + |ArrayTokens(dims, comma)|];
      HereAt(code, ts, es, i + |ArrayTokens(dims, comma)|);
    }
  }

  lemma DescRead(code: string, ts: seq<Token>, es: seq<nat>, i: nat, desc: Option<string>, next: Token) returns (q: nat)
    requires Lexed(code, ts, es) && Has(ts, i, DescTokens(desc) + [next]) && next.kind != String
    ensures es[i] <= |code| && ReadDesc(code, es[i]) == Some((DescOf(desc), q))
    ensures Here(code, ts, es, i + |DescTokens(desc)|, q) && ts[i + |DescTokens(desc)|] == next
  {
    hide Lex;
    HasSplit(ts, i, DescTokens(desc), [next]);
    HasFirst(ts, i + |DescTokens(desc)|, next, []);
    HereAt(code, ts, es, i);
    if desc.None? {
      HereAgain(code, ts, es, i, es[i]);
      q := Undo(code, es[i]);
    } else {
      HasFirst(ts, i, Token(desc.value, String), []);
      q := es[i + 1];
    }
  }

  lemma AlignmentRead(code: string, ts: seq<Token>, es: seq<nat>, i: nat, p: nat, alignment: Option<IntText>, mark: char) returns (q: nat)
    requires Here(code, ts, es, i, p) && Has(ts, i, AlignmentTokens(alignment) + [Mark(mark)]) && TailOk(alignment)
    ensures ReadAlignment(code, p) == Some((AlignmentOf(alignment), q))
    ensures q <= |code| && i + |AlignmentTokens(alignment)| < |ts| && ReadMark(code, q, mark) == Some(es[i + |AlignmentTokens(alignment)| + 1])
  {
    hide Lex, Number;
    HasSplit(ts, i, AlignmentTokens(alignment), [Mark(mark)]);
    HasFirst(ts, i + |AlignmentTokens(alignment)|, Mark(mark), []);
    if alignment.None? {
      HereAgain(code, ts, es, i, p);
      q := Undo(code, p);
    } else {
      HasFirst(ts, i, Token(alignment.value, Int), []);
      q := es[i + 1];
    }
  }

  lemma TailRead(code: string, ts: seq<Token>, es: seq<nat>, i: nat, desc: Option<string>, alignment: Option<IntText>, mark: char)
    requires Lexed(code, ts, es) && Has(ts, i, TailTokens(desc, alignment, mark)) && TailOk(alignment)
    ensures i + |TailTokens(desc, alignment, mark)| < |es| && es[i] <= |code|
    ensures ReadTail(code, es[i], mark) == Some((DescOf(desc), AlignmentOf(alignment), es[i + |TailTokens(desc, alignment, mark)|]))
  {
    hide Lex, ReadDesc, ReadAlignment, ReadMark, AlignmentOf;
    var rest := AlignmentTokens(alignment) + [Mark(mark)];
    HasSplit(ts, i, DescTokens(desc), rest);
    assert rest == [rest[0]] + rest[1..];
    Assoc(DescTokens(desc), [rest[0]], rest[1..]);
    HasSplit(ts, i, DescTokens(desc) + [rest[0]], rest[1..]);
    var p := DescRead(code, ts, es, i, desc, rest[0]);
    var q := AlignmentRead(code, ts, es, i + |DescTokens(desc)|, p, alignment, mark);
  }

  lemma NameIsNoMark(name: string, c: char)
    requires IsName(name) && !IsIdentifierChar(c)
    ensures name != [c]
  {
    assert IsIdentifierChar(name[0]);
  }

  /** A member is read back from wherever its type is the next token. */
  lemma MemberRead(code: string, ts: seq<Token>, es: seq<nat>, i: nat, p: nat, m: MemberForm, known: set<string>)
    requires Here(code, ts, es, i, p) && Has(ts, i, MemberTokens(m)) && MemberOk(m, known)
    ensures i + |MemberTokens(m)| < |es|
    ensures ReadMember(code, p, known) == Some((MemberMeans(m), es[i + |MemberTokens(m)|]))
  {
    hide Lex, ReadArray, ReadTail, AlignmentOf, Numbers, TypeKnown, TailTokens, ArrayTokens, IsName;
    var rest := ArrayTokens(m.dims, m.comma) + [Token(m.name, Identifier)];
    HasSplit(ts, i, FrontTokens(m), TailTokens(m.desc, m.alignment, ';'));
    HasFirst(ts, i, Token(m.typeName, Identifier), rest);
    NameIsNoMark(m.name, '[');
    var q := ArrayRead(code, ts, es, i + 1, m.dims, m.comma, Token(m.name, Identifier));
    TailRead(code, ts, es, i + |FrontTokens(m)|, m.desc, m.alignment, ';');
  }

  lemma {:induction false} MembersRead(code: string, ts: seq<Token>, es: seq<nat>, i: nat, p: nat, ms: seq<MemberForm>, known: set<string>)
    requires Here(code, ts, es, i, p) && Has(ts, i, MembersTokens(ms)) && ms != []
    requires forall k | 0 <= k < |ms| :: MemberOk(ms[k], known)
    ensures i + |MembersTokens(ms)| < |es|
    ensures ReadMembers(code, p, known) == Some((MembersMean(ms), es[i + |MembersTokens(ms)|]))
    decreases |ms|
  {
    hide Lex, ReadMember, MemberTokens, MemberMeans, MemberOk, Here;
    var j := i + |MemberTokens(ms[0])|;
    HasSplit(ts, i, MemberTokens(ms[0]), MembersTokens(ms[1..]));
    HereLexed(code, ts, es, i, p);
    MemberRead(code, ts, es, i, p, ms[0], known);
    if |ms| == 1 {
      HasFirst(ts, j, Mark('}'), []);
      HereAt(code, ts, es, j);
      HereLexed(code, ts, es, j, es[j]);
      assert ms[1..] == [] && MembersTokens(ms[1..]) == [Mark('}')];
      assert i + |MembersTokens(ms)| == j + 1;
      assert [MemberMeans(ms[0])] + [] == [MemberMeans(ms[0])];
    } else {
      HereMember(code, ts, es, j, ms[1], MembersTokens(ms[1..][1..]), known);
      MembersRead(code, ts, es, j, Undo(code, es[j]), ms[1..], known);
      assert i + |MembersTokens(ms)| == j + |MembersTokens(ms[1..])|;
    }
  }

  lemma HereLexed(code: string, ts: seq<Token>, es: seq<nat>, i: nat, p: nat)
    requires Here(code, ts, es, i, p)
    ensures Lexed(code, ts, es) && i < |ts| && p <= |code| && Lex(code, p) == Some((ts[i], es[i + 1]))
  {
  }

  /** At the start of a member, its type is the next token, also after it is put back. */
  lemma HereMember(code: string, ts: seq<Token>, es: seq<nat>, i: nat, m: MemberForm, rest: seq<Token>, known: set<string>)
    requires Lexed(code, ts, es) && Has(ts, i, MemberTokens(m) + rest) && MemberOk(m, known)
    ensures i < |ts| && es[i] <= |code| && ts[i] == Token(m.typeName, Identifier) && m.typeName != ['}']
    ensures Lex(code, es[i]) == Some((ts[i], es[i + 1])) && Here(code, ts, es, i, Undo(code, es[i]))
  {
    hide Lex, TailTokens, ArrayTokens, IsName;
    HasSplit(ts, i, MemberTokens(m), rest);
    HasSplit(ts, i, FrontTokens(m), TailTokens(m.desc, m.alignment, ';'));
    HasFirst(ts, i, Token(m.typeName, Identifier), ArrayTokens(m.dims, m.comma) + [Token(m.name, Identifier)]);
    HereAt(code, ts, es, i);
    HereAgain(code, ts, es, i, es[i]);
    NameIsNoMark(m.typeName, '}');
  }

  /** From p on, at least so many blanks. */
  predicate Room(code: string, p: nat, n: nat)
    requires p <= |code|
  {
    SkipSpace(code, p) - p >= n
  }

  /** With as many blanks as it is long, a token that is put back twice is still the next one. */
  lemma HopInRoom(code: string, p: nat)
    requires p <= |code| < TWO_32 && Lex(code, p).Some? && Lex(code, p).value.0.kind != String
    requires Room(code, p, |Lex(code, p).value.0.text|)
    ensures Hop(code, p) <= |code| && Lex(code, Hop(code, p)) == Lex(code, p)
  {
    var start := SkipSpace(code, p);
    UndoIsExact(code, p);
    SkipIs(code, Hop(code, p), start);
  }

  /** Behind the opening brace. */
  lemma BodyRead(code: string, ts: seq<Token>, es: seq<nat>, i: nat, ms: seq<MemberForm>, known: set<string>)
    requires Lexed(code, ts, es) && Has(ts, i, MembersTokens(ms)) && ms != [] && |code| < TWO_32
    requires forall k | 0 <= k < |ms| :: MemberOk(ms[k], known)
    requires es[i] <= |code| && Room(code, es[i], |ms[0].typeName|)
    ensures i + |MembersTokens(ms)| < |es|
    ensures ReadBody(code, es[i], known) == Some((MembersMean(ms), es[i + |MembersTokens(ms)|]))
  {
    hide Lex, ReadMembers, MembersMean, MemberTokens, MemberOk, Hop;
    HereMember(code, ts, es, i, ms[0], MembersTokens(ms[1..]), known);
    HopInRoom(code, es[i]);
    MembersRead(code, ts, es, i, Hop(code, es[i]), ms, known);
  }

  lemma HeadRead(code: string, ts: seq<Token>, es: seq<nat>, i: nat, d: StructForm, known: set<string>)
    requires Lexed(code, ts, es) && Has(ts, i, HeadTokens(d)) && StructOk(d, known)
    ensures i + |HeadTokens(d)| < |es| && es[i] <= |code|
    ensures ReadHead(code, es[i], known) == Head(d.name, DescOf(d.desc), AlignmentOf(d.alignment), es[i + |HeadTokens(d)|])
  {
    hide Lex, ReadTail, AlignmentOf, TailTokens, MemberOk, IsName, Substrings;
    HasSplit(ts, i, [Token(STRUCT, Identifier), Token(d.name, Identifier)], TailTokens(d.desc, d.alignment, '{'));
    HasFirst(ts, i, Token(STRUCT, Identifier), [Token(d.name, Identifier)]);
    HasFirst(ts, i + 1, Token(d.name, Identifier), []);
    TailRead(code, ts, es, i + 2, d.desc, d.alignment, '{');
  }

  lemma StructRead(code: string, ts: seq<Token>, es: seq<nat>, i: nat, d: StructForm, known: set<string>)
    requires Lexed(code, ts, es) && Has(ts, i, StructTokens(d)) && StructOk(d, known) && |code| < TWO_32
    requires i + |HeadTokens(d)| < |es| && es[i + |HeadTokens(d)|] <= |code|
    requires Room(code, es[i + |HeadTokens(d)|], |d.members[0].typeName|)
    ensures i + |StructTokens(d)| < |es| && es[i] <= |code|
    ensures ReadStruct(code, es[i], known) == Found(StructMeans(d), es[i + |StructTokens(d)|])
  {
    hide Lex, ReadHead, ReadBody, HeadTokens, MembersTokens, MembersMean, AlignmentOf, MemberOk;
    HasSplit(ts, i, HeadTokens(d), MembersTokens(d.members));
    HeadRead(code, ts, es, i, d, known);
    BodyRead(code, ts, es, i + |HeadTokens(d)|, d.members, known);
  }

  /** Behind every opening brace stand at least as many blanks as the first type name is long. */
  predicate AllRoom(code: string, es: seq<nat>, i: nat, ds: seq<StructForm>)
    decreases |ds|
  {
    ds != [] ==>
      && ds[0].members != [] && i + |HeadTokens(ds[0])| < |es| && es[i + |HeadTokens(ds[0])|] <= |code|
      && Room(code, es[i + |HeadTokens(ds[0])|], |ds[0].members[0].typeName|)
      && AllRoom(code, es, i + |StructTokens(ds[0])|, ds[1..])
  }

  lemma {:induction false} ProgramRead(code: string, ts: seq<Token>, es: seq<nat>, i: nat, ds: seq<StructForm>, known: set<string>)
    requires Lexed(code, ts, es) && Has(ts, i, ProgramTokens(ds)) && i + |ProgramTokens(ds)| == |ts| && |code| < TWO_32
    requires ProgramOk(ds, known) && AllRoom(code, es, i, ds)
    ensures es[i] <= |code| && ReadProgram(code, es[i], known) == Some(ProgramMeans(ds))
    decreases |ds|
  {
    hide Lex, ReadStruct, StructTokens, HeadTokens, StructOk, Substrings, Room;
    if ds == [] {
      AtTheEnd(code, ts, es, known);
    } else {
      HasSplit(ts, i, StructTokens(ds[0]), ProgramTokens(ds[1..]));
      StructRead(code, ts, es, i, ds[0], known);
      assert i + |ProgramTokens(ds)| == i + |StructTokens(ds[0])| + |ProgramTokens(ds[1..])|;
      ProgramRead(code, ts, es, i + |StructTokens(ds[0])|, ds[1..], known + {ds[0].name});
    }
  }

  lemma AtTheEnd(code: string, ts: seq<Token>, es: seq<nat>, known: set<string>)
    requires Lexed(code, ts, es)
    ensures es[|ts|] <= |code| && ReadStruct(code, es[|ts|], known) == AtEnd
  {
    hide Lex;
  }

  /**
   Every text with these tokens is read back as just these definitions, whatever blanks stand between the tokens and
   whatever optional parts are written, if there is room behind the opening braces.
   */
  lemma ReadsBack(code: string, ds: seq<StructForm>, es: seq<nat>)
    requires Lexed(code, ProgramTokens(ds), es) && ProgramOk(ds, {}) && |code| < TWO_32
    requires AllRoom(code, es, 0, ds)
    ensures ReadProgram(code, 0, {}) == Some(ProgramMeans(ds))
  {
    hide Lex, AllRoom, ReadProgram, ProgramMeans;
    var ts := ProgramTokens(ds);
    assert ts[0..0 + |ts|] == ts;
    ProgramRead(code, ts, es, 0, ds, {});
  }
}
