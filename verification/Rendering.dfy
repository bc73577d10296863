/** Texts written from tokens: every choice of blanks that keeps the tokens apart is read as these tokens. */
module Rendering {
  import opened Basics
  import opened DataTypes
  import opened Lexer
  import opened Reader
  import opened Syntax
  import opened Crowded

  function Spelled(t: Token): string {
    if t.kind == String then ['\''] + (Escape(t.text) + ['\'']) else t.text
  }

  /** Blanks and tokens in turn; bs[i] stands before token i, the last blanks at the end. */
  function Render(ts: seq<Token>, bs: seq<string>): string
    requires |bs| == |ts| + 1
  {
    if ts == [] then bs[0] else bs[0] + (Spelled(ts[0]) + Render(ts[1..], bs[1..]))
  }

  /** A name ends before what is no part of a name, an integer before what is no digit. */
  predicate Ends(t: Token, rest: string) {
    && (t.kind == Identifier && rest != "" ==> !IsIdentifierChar(rest[0]))
    && (t.kind == Int && rest != "" ==> !IsNumber(rest[0]))
  }

  predicate CanStand(t: Token) {
    match t.kind
    case Identifier => IsName(t.text)
    case Int => t.text != "" && IsDigits(t.text)
    case String => true
    case Other => |t.text| == 1 && !IsSpace(t.text[0]) && !IsIdentifierChar(t.text[0]) && t.text[0] != '\''
    case EndOfCode => false
  }

  /** Only blanks between the tokens, and some wherever two tokens would run together. */
  predicate Apart(ts: seq<Token>, bs: seq<string>)
    requires |bs| == |ts| + 1
  {
    && AllSpace(bs[0])
    && (ts != [] ==> CanStand(ts[0]) && Ends(ts[0], Render(ts[1..], bs[1..])) && Apart(ts[1..], bs[1..]))
  }

  /** One token with its blanks. */
  lemma LexOne(code: string, p: nat, b: string, t: Token, rest: string) returns (q: nat)
    requires p <= |code| && code[p..] == b + (Spelled(t) + rest) && AllSpace(b) && CanStand(t) && Ends(t, rest)
    ensures q <= |code| && Lex(code, p) == Some((t, q)) && code[q..] == rest && SkipSpace(code, p) == p + |b|
  {
    hide Lex, IsName, IsDigits, Escape, AllSpace;
    match t.kind {
      case Identifier =>
        LexName(code, p, b, t.text, rest);
        q := p + |b| + |t.text|;
      case Int =>
        LexInt(code, p, b, t.text, rest);
        q := p + |b| + |t.text|;
      case String =>
        Assoc(['\''], Escape(t.text) + ['\''], rest);
        Assoc(Escape(t.text), ['\''], rest);
        LexString(code, p, b, t.text, rest);
        q := p + |b| + |Escape(t.text)| + 2;
      case Other =>
        assert t.text == [t.text[0]];
        LexOther(code, p, b, t.text[0], rest);
        q := p + |b| + 1;
    }
    FirstSpelled(t);
    assert (Spelled(t) + rest)[0] == Spelled(t)[0];
    Blanks(code, p, b, Spelled(t) + rest);
  }

  lemma FirstSpelled(t: Token)
    requires CanStand(t)
    ensures Spelled(t) != "" && !IsSpace(Spelled(t)[0])
  {
    DigitsAreNoBlanks(Spelled(t)[0]);
  }

  /** Token i is read from es[i], behind its blanks. */
  ghost predicate ReadAt(code: string, ts: seq<Token>, bs: seq<string>, es: seq<nat>, i: nat)
    requires i < |ts| && |bs| == |es| == |ts| + 1
  {
    es[i] <= |code| && Lex(code, es[i]) == Some((ts[i], es[i + 1])) && SkipSpace(code, es[i]) == es[i] + |bs[i]|
  }

  ghost predicate AllRead(code: string, ts: seq<Token>, bs: seq<string>, es: seq<nat>) {
    && |bs| == |es| == |ts| + 1 && (forall i | 0 <= i < |ts| :: ReadAt(code, ts, bs, es, i))
    && es[|ts|] <= |code| && Lex(code, es[|ts|]).Some? && Lex(code, es[|ts|]).value.0.kind == EndOfCode
  }

  /** Where each token ends, and how many blanks stand before it. */
  lemma {:induction false} LexAll(code: string, p: nat, ts: seq<Token>, bs: seq<string>) returns (es: seq<nat>)
    requires |bs| == |ts| + 1 && p <= |code| && code[p..] == Render(ts, bs) && Apart(ts, bs)
    ensures AllRead(code, ts, bs, es) && es[0] == p
    decreases |ts|
  {
    hide Lex, CanStand, Spelled, Ends, AllRead, SkipSpace;
    if ts == [] {
      OnlyBlanks(code, p, bs[0]);
      es := [p];
      NoneRead(code, ts, bs, es);
    } else {
      var q := LexOne(code, p, bs[0], ts[0], Render(ts[1..], bs[1..]));
      var rest := LexAll(code, q, ts[1..], bs[1..]);
      es := [p] + rest;
      OneRead(code, p, ts, bs, q, rest);
    }
  }

  lemma NoneRead(code: string, ts: seq<Token>, bs: seq<string>, es: seq<nat>)
    requires ts == [] && |bs| == 1 && |es| == 1 && es[0] <= |code|
    requires Lex(code, es[0]).Some? && Lex(code, es[0]).value.0.kind == EndOfCode
    ensures AllRead(code, ts, bs, es)
  {
    hide Lex;
  }

  lemma OneRead(code: string, p: nat, ts: seq<Token>, bs: seq<string>, q: nat, rest: seq<nat>)
    requires ts != [] && bs != [] && AllRead(code, ts[1..], bs[1..], rest) && rest[0] == q
    requires p <= |code| && Lex(code, p) == Some((ts[0], q)) && SkipSpace(code, p) == p + |bs[0]|
    ensures AllRead(code, ts, bs, [p] + rest)
  {
    hide Lex, SkipSpace;
    forall i | 0 <= i < |ts|
      ensures ReadAt(code, ts, bs, [p] + rest, i)
    {
      assert i > 0 ==> ReadAt(code, ts[1..], bs[1..], rest, i - 1);
    }
  }

  lemma OnlyBlanks(code: string, p: nat, b: string)
    requires p <= |code| && code[p..] == b && AllSpace(b)
    ensures Lex(code, p).Some? && Lex(code, p).value.0.kind == EndOfCode
  {
    assert b + "" == b;
    Blanks(code, p, b, "");
  }

  /** The text has just these tokens. */
  lemma Rendered(ts: seq<Token>, bs: seq<string>) returns (es: seq<nat>)
    requires |bs| == |ts| + 1 && Apart(ts, bs)
    ensures Lexed(Render(ts, bs), ts, es)
    ensures forall i | 0 <= i < |ts| :: SkipSpace(Render(ts, bs), es[i]) == es[i] + |bs[i]|
  {
    hide Lex, Render, Apart;
    var code := Render(ts, bs);
    assert code[0..] == code;
    es := LexAll(code, 0, ts, bs);
    forall i | 0 <= i < |ts|
      ensures es[i] <= |code| && Lex(code, es[i]) == Some((ts[i], es[i + 1])) && SkipSpace(code, es[i]) == es[i] + |bs[i]|
    {
      assert ReadAt(code, ts, bs, es, i);
    }
  }

  /** Behind every opening brace the blanks are at least as many as the first type name is long. */
  predicate BlanksFit(bs: seq<string>, i: nat, ds: seq<StructForm>)
    decreases |ds|
  {
    ds != [] ==>
      && ds[0].members != [] && i + |HeadTokens(ds[0])| < |bs|
      && |bs[i + |HeadTokens(ds[0])|]| >= |ds[0].members[0].typeName|
      && BlanksFit(bs, i + |StructTokens(ds[0])|, ds[1..])
  }

  lemma {:induction false} RoomIsBlanks(code: string, ts: seq<Token>, bs: seq<string>, es: seq<nat>, i: nat, ds: seq<StructForm>, known: set<string>)
    requires Lexed(code, ts, es) && |bs| == |ts| + 1 && Has(ts, i, ProgramTokens(ds)) && ProgramOk(ds, known)
    requires forall k | 0 <= k < |ts| :: SkipSpace(code, es[k]) == es[k] + |bs[k]|
    ensures AllRoom(code, es, i, ds) <==> BlanksFit(bs, i, ds)
    decreases |ds|
  {
    hide Lex, StructTokens, HeadTokens, MembersTokens, SkipSpace, Room, StructOk;
    if ds != [] {
      var d := ds[0];
      var b := i + |HeadTokens(d)|;
      HasSplit(ts, i, StructTokens(d), ProgramTokens(ds[1..]));
      BraceInside(ts, i, d);
      NeedsMembers(d, known);
      RoomIs(code, es[b], bs[b], |d.members[0].typeName|);
      RoomIsBlanks(code, ts, bs, es, i + |StructTokens(d)|, ds[1..], known + {d.name});
    }
  }

  lemma RoomIs(code: string, p: nat, b: string, n: nat)
    requires p <= |code| && SkipSpace(code, p) == p + |b|
    ensures Room(code, p, n) <==> |b| >= n
  {
  }

  lemma NeedsMembers(d: StructForm, known: set<string>)
    requires StructOk(d, known)
    ensures d.members != []
  {
  }

  lemma {:induction false} SomeTokens(ms: seq<MemberForm>)
    ensures |MembersTokens(ms)| > 0
    decreases |ms|
  {
    hide MemberTokens;
    if ms != [] {
      SomeTokens(ms[1..]);
    }
  }

  lemma BraceInside(ts: seq<Token>, i: nat, d: StructForm)
    requires Has(ts, i, StructTokens(d))
    ensures i + |HeadTokens(d)| < i + |StructTokens(d)| <= |ts|
  {
    hide HeadTokens, MembersTokens;
    SomeTokens(d.members);
  }

  /** A text of definitions with any blanks is read back if and only if there are enough of them behind the braces. */
  lemma RenderReadsBackIff(ds: seq<StructForm>, bs: seq<string>)
    requires |bs| == |ProgramTokens(ds)| + 1 && Apart(ProgramTokens(ds), bs) && ProgramOk(ds, {})
    requires |Render(ProgramTokens(ds), bs)| < TWO_32
    ensures ReadProgram(Render(ProgramTokens(ds), bs), 0, {}) == Some(ProgramMeans(ds)) <==> BlanksFit(bs, 0, ds)
  {
    hide Lex, Render, Apart, AllRoom, BlanksFit, ReadProgram, ProgramMeans, ProgramOk, ProgramTokens;
    var ts := ProgramTokens(ds);
    var code := Render(ts, bs);
    var es := Rendered(ts, bs);
    assert ts[0..0 + |ts|] == ts;
    RoomIsBlanks(code, ts, bs, es, 0, ds, {});
    ReadsBackIff(code, ds, es);
  }

  // ----- Definitions that are printed -----

  function DigitTexts(dims: seq<nat>): seq<IntText> {
    if dims == [] then [] else [IntDigits(dims[0])] + DigitTexts(dims[1..])
  }

  function IntDigits(n: nat): IntText {
    Digits(n)
  }

  /** Dimensions if there are any, description and alignment always. */
  function MemberFormOf(m: MemberDef): MemberForm {
    MemberForm(m.typeName, if m.arrays == [] then None else Some(DigitTexts(m.arrays)), false, m.name, Some(m.desc),
               Some(IntDigits(m.alignment)))
  }

  function MemberFormsOf(ms: seq<MemberDef>): seq<MemberForm> {
    if ms == [] then [] else [MemberFormOf(ms[0])] + MemberFormsOf(ms[1..])
  }

  function FormsOf(ds: seq<StructDef>): seq<StructForm> {
    if ds == [] then []
    else [StructForm(ds[0].name, Some(ds[0].desc), Some(IntDigits(ds[0].alignment)), MemberFormsOf(ds[0].members))] + FormsOf(ds[1..])
  }

  lemma {:induction false} DimsMean(dims: seq<nat>)
    ensures Numbers(DigitTexts(dims)) == dims
  {
    hide Digits, Number;
    if dims != [] {
      DimsMean(dims[1..]);
      NumberOfDigits(dims[0]);
      assert DigitTexts(dims)[1..] == DigitTexts(dims[1..]);
    }
  }

  lemma {:induction false} MembersMeanThemselves(ms: seq<MemberDef>)
    requires forall i | 0 <= i < |ms| :: ms[i].alignment < 65536
    ensures MembersMean(MemberFormsOf(ms)) == ms
  {
    hide Digits, Number, Numbers, DigitTexts;
    if ms != [] {
      MembersMeanThemselves(ms[1..]);
      DimsMean(ms[0].arrays);
      NumberOfDigits(ms[0].alignment);
      assert MemberMeans(MemberFormOf(ms[0])) == ms[0];
      assert MemberFormsOf(ms)[1..] == MemberFormsOf(ms[1..]);
    }
  }

  /** Definitions are among the things that can be written. */
  lemma {:induction false} PrintedMeans(ds: seq<StructDef>)
    requires forall i | 0 <= i < |ds| :: ds[i].alignment < 65536
    requires forall i, j | 0 <= i < |ds| && 0 <= j < |ds[i].members| :: ds[i].members[j].alignment < 65536
    ensures ProgramMeans(FormsOf(ds)) == ds
  {
    hide Digits, Number, MembersMean, MemberFormsOf;
    if ds != [] {
      PrintedMeans(ds[1..]);
      MembersMeanThemselves(ds[0].members);
      NumberOfDigits(ds[0].alignment);
      assert StructMeans(FormsOf(ds)[0]) == ds[0];
      assert FormsOf(ds)[1..] == FormsOf(ds[1..]);
    }
  }

  /** Definitions printed with any blanks are read back as they were, if and only if the blanks behind the braces suffice. */
  lemma PrintedReadsBackIff(ds: seq<StructDef>, bs: seq<string>)
    requires forall i | 0 <= i < |ds| :: ds[i].alignment < 65536
    requires forall i, j | 0 <= i < |ds| && 0 <= j < |ds[i].members| :: ds[i].members[j].alignment < 65536
    requires |bs| == |ProgramTokens(FormsOf(ds))| + 1 && Apart(ProgramTokens(FormsOf(ds)), bs) && ProgramOk(FormsOf(ds), {})
    requires |Render(ProgramTokens(FormsOf(ds)), bs)| < TWO_32
    ensures ReadProgram(Render(ProgramTokens(FormsOf(ds)), bs), 0, {}) == Some(ds) <==> BlanksFit(bs, 0, FormsOf(ds))
  {
    hide Render, Apart, BlanksFit, ReadProgram, ProgramMeans, ProgramOk, ProgramTokens, FormsOf;
    PrintedMeans(ds);
    RenderReadsBackIff(FormsOf(ds), bs);
  }

  // ----- An example -----

  /** struct S{float x;} */
  function Example(blanks: string): string {
    STRUCT + ([' ', 'S', '{'] + (blanks + (FLOAT + [' ', 'x', ';', '}'])))
  }

  const FLOAT: string := ['f', 'l', 'o', 'a', 't']

  const EXAMPLE_FORM: StructForm := StructForm(['S'], None, None, [MemberForm(FLOAT, None, false, ['x'], None, None)])

  const EXAMPLE_TOKENS: seq<Token> :=
    [Token(STRUCT, Identifier), Token(['S'], Identifier), Mark('{'), Token(FLOAT, Identifier), Token(['x'], Identifier),
     Mark(';'), Mark('}')]

  function ExampleBlanks(blanks: string): (bs: seq<string>)
    ensures |bs| == 8
  {
    ["", [' '], "", blanks, [' '], "", "", ""]
  }

  lemma ExampleOk()
    ensures ProgramOk([EXAMPLE_FORM], {})
  {
    assert TypeNamed(FLOAT) == Float;
    assert [EXAMPLE_FORM][1..] == [];
  }

  lemma ExampleTokens()
    ensures ProgramTokens([EXAMPLE_FORM]) == EXAMPLE_TOKENS && |HeadTokens(EXAMPLE_FORM)| == 3
  {
    var m := EXAMPLE_FORM.members[0];
    assert MemberTokens(m) == [Token(FLOAT, Identifier), Token(['x'], Identifier), Mark(';')];
    assert EXAMPLE_FORM.members[1..] == [] && MembersTokens([]) == [Mark('}')];
    assert HeadTokens(EXAMPLE_FORM) == [Token(STRUCT, Identifier), Token(['S'], Identifier), Mark('{')];
    assert [EXAMPLE_FORM][1..] == [] && ProgramTokens([]) == [];
  }

  lemma ExampleFits(blanks: string)
    ensures BlanksFit(ExampleBlanks(blanks), 0, [EXAMPLE_FORM]) <==> |blanks| >= 5
  {
    ExampleTokens();
    assert [EXAMPLE_FORM][1..] == [];
  }

  /** The text from token i on. */
  lemma RenderFrom(ts: seq<Token>, bs: seq<string>, i: nat, rest: string)
    requires i < |ts| && |bs| == |ts| + 1 && Render(ts[i + 1..], bs[i + 1..]) == rest && Apart(ts[i + 1..], bs[i + 1..])
    requires AllSpace(bs[i]) && CanStand(ts[i]) && Ends(ts[i], rest) && ts[i].kind != String
    ensures Render(ts[i..], bs[i..]) == bs[i] + (ts[i].text + rest) && Apart(ts[i..], bs[i..])
  {
    hide AllSpace, CanStand, Ends;
    assert ts[i..][1..] == ts[i + 1..] && bs[i..][1..] == bs[i + 1..];
  }

  lemma ExampleStands()
    ensures forall i | 0 <= i < 7 :: CanStand(EXAMPLE_TOKENS[i])
    ensures AllSpace("") && AllSpace([' '])
  {
    assert IsName(STRUCT) && IsName(['S']) && IsName(FLOAT) && IsName(['x']);
  }

  lemma ExampleText(blanks: string)
    requires AllSpace(blanks)
    ensures Render(EXAMPLE_TOKENS, ExampleBlanks(blanks)) == Example(blanks) && Apart(EXAMPLE_TOKENS, ExampleBlanks(blanks))
  {
    hide AllSpace, CanStand, Render, Apart;
    var ts, bs := EXAMPLE_TOKENS, ExampleBlanks(blanks);
    ExampleStands();
    NoTokens(ts[7..], bs[7..]);
    RenderFrom(ts, bs, 6, "");
    RenderFrom(ts, bs, 5, "" + (['}'] + ""));
    RenderFrom(ts, bs, 4, "" + ([';'] + ("" + (['}'] + ""))));
    var end := [' ', 'x', ';', '}'];
    assert [' '] + (['x'] + ("" + ([';'] + ("" + (['}'] + ""))))) == end;
    RenderFrom(ts, bs, 3, end);
    RenderFrom(ts, bs, 2, blanks + (FLOAT + end));
    RenderFrom(ts, bs, 1, "" + (['{'] + (blanks + (FLOAT + end))));
    var middle := [' ', 'S', '{'] + (blanks + (FLOAT + end));
    assert [' '] + (['S'] + ("" + (['{'] + (blanks + (FLOAT + end))))) == middle;
    RenderFrom(ts, bs, 0, middle);
    assert ts[0..] == ts && bs[0..] == bs;
    assert "" + (STRUCT + middle) == STRUCT + middle;
  }

  lemma NoTokens(ts: seq<Token>, bs: seq<string>)
    requires ts == [] && bs == [""]
    ensures Render(ts, bs) == "" && Apart(ts, bs)
  {
  }

  /** Written without blanks behind the brace it is not read back; with five of them it is. */
  lemma ExampleReadsBackIff(blanks: string)
    requires AllSpace(blanks) && |Example(blanks)| < TWO_32
    ensures ReadProgram(Example(blanks), 0, {}) == Some(ProgramMeans([EXAMPLE_FORM])) <==> |blanks| >= 5
  {
    hide ReadProgram, ProgramMeans, Render, Apart, BlanksFit, ProgramTokens, ProgramOk, AllSpace;
    ExampleOk();
    ExampleTokens();
    ExampleText(blanks);
    ExampleFits(blanks);
    RenderReadsBackIff([EXAMPLE_FORM], ExampleBlanks(blanks));
  }
}
