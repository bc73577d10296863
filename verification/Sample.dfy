/**
 The struct definitions in the start-up code of the program, as they stand there, with tabs, line breaks, descriptions, arrays
 and an alignment: what the parser makes of them, down to every offset.
 */
module Sample {
  import opened Basics
  import opened DataTypes
  import opened Lexer
  import opened Reader
  import opened StructLayout
  import P = Parser
  import R = Rendering
  import S = Syntax

  // ----- Texts of tokens -----

  /** These tokens with these blanks are this text. */
  predicate Written(ts: seq<Token>, bs: seq<string>, text: string) {
    |bs| == |ts| + 1 && R.Apart(ts, bs) && R.Render(ts, bs) == text
  }

  lemma NothingWritten()
    ensures Written([], [""], "")
  {
  }

  /** One more token in front. */
  lemma TokenWritten(t: Token, b: string, ts: seq<Token>, bs: seq<string>, rest: string)
    requires Written(ts, bs, rest) && AllSpace(b) && R.CanStand(t) && R.Ends(t, rest)
    ensures Written([t] + ts, [b] + bs, b + (R.Spelled(t) + rest))
  {
    hide AllSpace, R.CanStand, R.Ends, R.Spelled;
    assert ([t] + ts)[1..] == ts && ([b] + bs)[1..] == bs;
  }

  lemma MarkWritten(c: char, b: string, ts: seq<Token>, bs: seq<string>, rest: string)
    requires Written(ts, bs, rest) && AllSpace(b) && !IsSpace(c) && !IsIdentifierChar(c) && c != '\''
    ensures Written([S.Mark(c)] + ts, [b] + bs, b + ([c] + rest))
  {
    TokenWritten(S.Mark(c), b, ts, bs, rest);
  }

  lemma NameWritten(name: string, b: string, ts: seq<Token>, bs: seq<string>, rest: string)
    requires Written(ts, bs, rest) && AllSpace(b) && IsName(name) && (rest != "" ==> !IsIdentifierChar(rest[0]))
    ensures Written([Token(name, Identifier)] + ts, [b] + bs, b + (name + rest))
  {
    TokenWritten(Token(name, Identifier), b, ts, bs, rest);
  }

  lemma OneSpace()
    ensures AllSpace(" ") && AllSpace("")
  {
  }

  // ----- Parts of definitions -----

  /** No description and no alignment. */
  lemma MarkTail(mark: char, b: string, ts: seq<Token>, bs: seq<string>, rest: string)
    requires Written(ts, bs, rest) && AllSpace(b) && !IsSpace(mark) && !IsIdentifierChar(mark) && mark != '\''
    ensures Written(S.TailTokens(None, None, mark) + ts, [b] + bs, b + ([mark] + rest))
  {
    hide Written, AllSpace;
    MarkWritten(mark, b, ts, bs, rest);
    assert S.TailTokens(None, None, mark) == [S.Mark(mark)];
  }

  predicate NoEscapes(text: string) {
    forall i | 0 <= i < |text| :: text[i] != '\\' && text[i] != '\'' && text[i] != '\n' && text[i] != '\t'
  }

  lemma {:induction false} PlainEscape(text: string)
    requires NoEscapes(text)
    ensures Escape(text) == text
  {
    if text != "" {
      PlainEscape(text[1..]);
      assert text == [text[0]] + text[1..];
    }
  }

  /** A description. */
  lemma DescTail(desc: string, mark: char, ts: seq<Token>, bs: seq<string>, rest: string)
    requires Written(ts, bs, rest) && !IsSpace(mark) && !IsIdentifierChar(mark) && mark != '\''
    requires NoEscapes(desc)
    ensures Written(S.TailTokens(Some(desc), None, mark) + ts, [" ", ""] + bs, " " + ("'" + (desc + ("'" + ([mark] + rest)))))
  {
    hide Written, AllSpace, Escape;
    OneSpace();
    PlainEscape(desc);
    MarkWritten(mark, "", ts, bs, rest);
    var ts1, bs1, end := [S.Mark(mark)] + ts, [""] + bs, "" + ([mark] + rest);
    TokenWritten(Token(desc, String), " ", ts1, bs1, end);
    assert S.TailTokens(Some(desc), None, mark) + ts == [Token(desc, String)] + ts1;
    assert [" ", ""] + bs == [" "] + bs1;
    assert "'" == ['\''];
    assert (['\''] + (desc + ['\''])) + end == "'" + (desc + ("'" + ([mark] + rest)));
  }

  /** An alignment. */
  lemma AlignmentTail(alignment: S.IntText, mark: char, ts: seq<Token>, bs: seq<string>, rest: string)
    requires Written(ts, bs, rest) && !IsSpace(mark) && !IsIdentifierChar(mark) && mark != '\''
    ensures Written(S.TailTokens(None, Some(alignment), mark) + ts, [" ", ""] + bs, " " + (alignment + ([mark] + rest)))
  {
    hide Written, AllSpace, IsDigits;
    OneSpace();
    MarkWritten(mark, "", ts, bs, rest);
    var ts1, bs1, end := [S.Mark(mark)] + ts, [""] + bs, "" + ([mark] + rest);
    TokenWritten(Token(alignment, Int), " ", ts1, bs1, end);
    assert S.TailTokens(None, Some(alignment), mark) + ts == [Token(alignment, Int)] + ts1;
    assert [" ", ""] + bs == [" "] + bs1;
    assert end == [mark] + rest;
  }

  /** What ends a name. */
  predicate EndsName(rest: string) { rest != "" ==> !IsIdentifierChar(rest[0]) }

  /** Type and name. */
  lemma PlainFront(m: S.MemberForm, b: string, ts: seq<Token>, bs: seq<string>, rest: string)
    requires m.dims == None && IsName(m.typeName) && IsName(m.name) && AllSpace(b) && Written(ts, bs, rest) && EndsName(rest)
    ensures Written(S.FrontTokens(m) + ts, [b, " "] + bs, b + (m.typeName + (" " + (m.name + rest))))
  {
    hide Written, IsName, AllSpace;
    OneSpace();
    NameWritten(m.name, " ", ts, bs, rest);
    NameWritten(m.typeName, b, [Token(m.name, Identifier)] + ts, [" "] + bs, " " + (m.name + rest));
    assert S.FrontTokens(m) + ts == [Token(m.typeName, Identifier)] + ([Token(m.name, Identifier)] + ts);
    assert [b, " "] + bs == [b] + ([" "] + bs);
  }

  /** Type with one dimension, and name. */
  lemma ArrayFront(m: S.MemberForm, dim: S.IntText, b: string, ts: seq<Token>, bs: seq<string>, rest: string)
    requires m.dims == Some([dim]) && !m.comma && IsName(m.typeName) && IsName(m.name)
    requires AllSpace(b) && Written(ts, bs, rest) && EndsName(rest)
    ensures Written(S.FrontTokens(m) + ts, [b, "", "", "", " "] + bs,
                    b + (m.typeName + ("[" + (dim + ("]" + (" " + (m.name + rest)))))))
  {
    hide Written, IsName, AllSpace, IsDigits;
    OneSpace();
    NameWritten(m.name, " ", ts, bs, rest);
    var ts2, bs2, end2 := [Token(m.name, Identifier)] + ts, [" "] + bs, " " + (m.name + rest);
    MarkWritten(']', "", ts2, bs2, end2);
    var ts3, bs3, end3 := [S.Mark(']')] + ts2, [""] + bs2, "" + ([']'] + end2);
    TokenWritten(Token(dim, Int), "", ts3, bs3, end3);
    var ts4, bs4, end4 := [Token(dim, Int)] + ts3, [""] + bs3, "" + (dim + end3);
    MarkWritten('[', "", ts4, bs4, end4);
    var ts5, bs5, end5 := [S.Mark('[')] + ts4, [""] + bs4, "" + (['['] + end4);
    NameWritten(m.typeName, b, ts5, bs5, end5);
    assert S.FrontTokens(m) + ts == [Token(m.typeName, Identifier)] + ts5;
    assert [b, "", "", "", " "] + bs == [b] + bs5;
    assert end5 == "[" + (dim + ("]" + (" " + (m.name + rest))));
  }

  // ----- Members -----

  /** type name; */
  lemma PlainMember(m: S.MemberForm, line: string, b: string, ts: seq<Token>, bs: seq<string>, rest: string)
    requires m.dims == None && m.desc == None && m.alignment == None && IsName(m.typeName) && IsName(m.name)
    requires line == m.typeName + (" " + (m.name + ";")) && AllSpace(b) && Written(ts, bs, rest)
    ensures Written(S.MemberTokens(m) + ts, [b] + ([" ", ""] + bs), b + (line + rest))
  {
    hide Written, IsName, AllSpace, S.FrontTokens, S.TailTokens;
    OneSpace();
    MarkTail(';', "", ts, bs, rest);
    var ts1, bs1, rest1 := S.TailTokens(None, None, ';') + ts, [""] + bs, "" + ([';'] + rest);
    PlainFront(m, b, ts1, bs1, rest1);
    assert S.MemberTokens(m) + ts == S.FrontTokens(m) + ts1;
    assert [b] + ([" ", ""] + bs) == [b, " "] + bs1;
    assert line + rest == m.typeName + (" " + (m.name + rest1));
  }

  /** type name 'description'; */
  lemma DescMember(m: S.MemberForm, desc: string, line: string, b: string, ts: seq<Token>, bs: seq<string>, rest: string)
    requires m.dims == None && m.desc == Some(desc) && m.alignment == None && IsName(m.typeName) && IsName(m.name)
    requires NoEscapes(desc)
    requires line == m.typeName + (" " + (m.name + (" " + ("'" + (desc + ("'" + ";"))))))
    requires AllSpace(b) && Written(ts, bs, rest)
    ensures Written(S.MemberTokens(m) + ts, [b] + ([" ", " ", ""] + bs), b + (line + rest))
  {
    hide Written, IsName, AllSpace, S.FrontTokens, S.TailTokens;
    DescTail(desc, ';', ts, bs, rest);
    var ts1, bs1 := S.TailTokens(Some(desc), None, ';') + ts, [" ", ""] + bs;
    var rest1 := " " + ("'" + (desc + ("'" + ([';'] + rest))));
    PlainFront(m, b, ts1, bs1, rest1);
    assert S.MemberTokens(m) + ts == S.FrontTokens(m) + ts1;
    assert [b] + ([" ", " ", ""] + bs) == [b, " "] + bs1;
    assert line + rest == m.typeName + (" " + (m.name + rest1));
  }

  /** type[dimension] name; */
  lemma ArrayMember(m: S.MemberForm, dim: S.IntText, line: string, b: string, ts: seq<Token>, bs: seq<string>, rest: string)
    requires m.dims == Some([dim]) && !m.comma && m.desc == None && m.alignment == None && IsName(m.typeName) && IsName(m.name)
    requires line == m.typeName + ("[" + (dim + ("]" + (" " + (m.name + ";"))))) && AllSpace(b) && Written(ts, bs, rest)
    ensures Written(S.MemberTokens(m) + ts, [b] + (["", "", "", " ", ""] + bs), b + (line + rest))
  {
    hide Written, IsName, AllSpace, S.FrontTokens, S.TailTokens;
    OneSpace();
    MarkTail(';', "", ts, bs, rest);
    var ts1, bs1, rest1 := S.TailTokens(None, None, ';') + ts, [""] + bs, "" + ([';'] + rest);
    ArrayFront(m, dim, b, ts1, bs1, rest1);
    assert S.MemberTokens(m) + ts == S.FrontTokens(m) + ts1;
    assert [b] + (["", "", "", " ", ""] + bs) == [b, "", "", "", " "] + bs1;
    assert line + rest == m.typeName + ("[" + (dim + ("]" + (" " + (m.name + rest1)))));
  }

  /** type[dimension] name alignment; */
  lemma AlignedMember(m: S.MemberForm, dim: S.IntText, alignment: S.IntText, line: string, b: string,
                      ts: seq<Token>, bs: seq<string>, rest: string)
    requires m.dims == Some([dim]) && !m.comma && m.desc == None && m.alignment == Some(alignment)
    requires IsName(m.typeName) && IsName(m.name)
    requires line == m.typeName + ("[" + (dim + ("]" + (" " + (m.name + (" " + (alignment + ";")))))))
    requires AllSpace(b) && Written(ts, bs, rest)
    ensures Written(S.MemberTokens(m) + ts, [b] + (["", "", "", " ", " ", ""] + bs), b + (line + rest))
  {
    hide Written, IsName, AllSpace, S.FrontTokens, S.TailTokens, IsDigits;
    AlignmentTail(alignment, ';', ts, bs, rest);
    var ts1, bs1 := S.TailTokens(None, Some(alignment), ';') + ts, [" ", ""] + bs;
    var rest1 := " " + (alignment + ([';'] + rest));
    ArrayFront(m, dim, b, ts1, bs1, rest1);
    assert S.MemberTokens(m) + ts == S.FrontTokens(m) + ts1;
    assert [b] + (["", "", "", " ", " ", ""] + bs) == [b, "", "", "", " "] + bs1;
    assert line + rest == m.typeName + ("[" + (dim + ("]" + (" " + (m.name + rest1)))));
  }

  // ----- Structs -----

  /** Members and closing brace, with the definitions that follow: all behind the blanks b. */
  ghost predicate Body(ms: seq<S.MemberForm>, ds: seq<S.StructForm>, b: string, text: string) {
    exists bs :: BodyWith(ms, ds, b, text, bs)
  }

  predicate BodyWith(ms: seq<S.MemberForm>, ds: seq<S.StructForm>, b: string, text: string, bs: seq<string>) {
    && Written(S.MembersTokens(ms) + S.ProgramTokens(ds), [b] + bs, b + text)
    && R.BlanksFit([b] + bs, |S.MembersTokens(ms)|, ds)
  }

  /** Definitions, with enough blanks behind the braces. */
  ghost predicate Program(ds: seq<S.StructForm>, text: string) {
    exists bs :: Written(S.ProgramTokens(ds), bs, text) && R.BlanksFit(bs, 0, ds)
  }

  /** Blanks that fit also fit behind others. */
  lemma {:induction false} FitBehind(front: seq<string>, bs: seq<string>, i: nat, ds: seq<S.StructForm>)
    requires R.BlanksFit(bs, i, ds)
    ensures R.BlanksFit(front + bs, |front| + i, ds)
    decreases |ds|
  {
    hide S.HeadTokens, S.StructTokens;
    if ds != [] {
      FitBehind(front, bs, i + |S.StructTokens(ds[0])|, ds[1..]);
      assert |front| + i + |S.StructTokens(ds[0])| == |front| + (i + |S.StructTokens(ds[0])|);
    }
  }

  lemma NoProgram()
    ensures Program([], "")
  {
    NothingWritten();
    assert Written(S.ProgramTokens([]), [""], "") && R.BlanksFit([""], 0, []);
  }

  lemma EndBody(ds: seq<S.StructForm>, b: string, text: string)
    requires Program(ds, text) && AllSpace(b)
    ensures Body([], ds, b, "}" + text)
  {
    hide Written, AllSpace, R.BlanksFit;
    var bs :| Written(S.ProgramTokens(ds), bs, text) && R.BlanksFit(bs, 0, ds);
    MarkWritten('}', b, S.ProgramTokens(ds), bs, text);
    FitBehind([b], bs, 0, ds);
    assert S.MembersTokens([]) == [S.Mark('}')];
    assert "}" == ['}'];
    assert BodyWith([], ds, b, "}" + text, bs);
  }

  /** One more member in front. */
  lemma MoreBody(m: S.MemberForm, ms: seq<S.MemberForm>, ds: seq<S.StructForm>, b: string, line: string, inner: seq<string>,
                 b': string, text: string, bs: seq<string>)
    requires BodyWith(ms, ds, b', text, bs) && |S.MemberTokens(m)| == 1 + |inner|
    requires Written(S.MemberTokens(m) + (S.MembersTokens(ms) + S.ProgramTokens(ds)), [b] + (inner + ([b'] + bs)),
                     b + (line + (b' + text)))
    ensures Body([m] + ms, ds, b, line + (b' + text))
  {
    hide Written, R.BlanksFit, S.MemberTokens, S.MembersTokens, S.ProgramTokens;
    var more := inner + ([b'] + bs);
    MembersMore(m, ms);
    FitBehind([b] + inner, [b'] + bs, |S.MembersTokens(ms)|, ds);
    Assoc([b], inner, [b'] + bs);
    Assoc(S.MemberTokens(m), S.MembersTokens(ms), S.ProgramTokens(ds));
    assert BodyWith([m] + ms, ds, b, line + (b' + text), more);
  }

  lemma MembersMore(m: S.MemberForm, ms: seq<S.MemberForm>)
    ensures S.MembersTokens([m] + ms) == S.MemberTokens(m) + S.MembersTokens(ms)
  {
    hide S.MemberTokens;
    assert ([m] + ms)[1..] == ms;
  }

  lemma PlainBody(m: S.MemberForm, ms: seq<S.MemberForm>, ds: seq<S.StructForm>, b: string, line: string, b': string, text: string)
    requires m.dims == None && m.desc == None && m.alignment == None && IsName(m.typeName) && IsName(m.name)
    requires line == m.typeName + (" " + (m.name + ";")) && AllSpace(b) && Body(ms, ds, b', text)
    ensures Body([m] + ms, ds, b, line + (b' + text))
  {
    hide Written, AllSpace, IsName, R.BlanksFit;
    var bs :| BodyWith(ms, ds, b', text, bs);
    PlainMember(m, line, b, S.MembersTokens(ms) + S.ProgramTokens(ds), [b'] + bs, b' + text);
    MoreBody(m, ms, ds, b, line, [" ", ""], b', text, bs);
  }

  lemma DescBody(m: S.MemberForm, desc: string, ms: seq<S.MemberForm>, ds: seq<S.StructForm>, b: string, line: string,
                 b': string, text: string)
    requires m.dims == None && m.desc == Some(desc) && m.alignment == None && IsName(m.typeName) && IsName(m.name)
    requires NoEscapes(desc)
    requires line == m.typeName + (" " + (m.name + (" " + ("'" + (desc + ("'" + ";"))))))
    requires AllSpace(b) && Body(ms, ds, b', text)
    ensures Body([m] + ms, ds, b, line + (b' + text))
  {
    hide Written, AllSpace, IsName, R.BlanksFit;
    var bs :| BodyWith(ms, ds, b', text, bs);
    DescMember(m, desc, line, b, S.MembersTokens(ms) + S.ProgramTokens(ds), [b'] + bs, b' + text);
    MoreBody(m, ms, ds, b, line, [" ", " ", ""], b', text, bs);
  }

  lemma ArrayBody(m: S.MemberForm, dim: S.IntText, ms: seq<S.MemberForm>, ds: seq<S.StructForm>, b: string, line: string,
                  b': string, text: string)
    requires m.dims == Some([dim]) && !m.comma && m.desc == None && m.alignment == None && IsName(m.typeName) && IsName(m.name)
    requires line == m.typeName + ("[" + (dim + ("]" + (" " + (m.name + ";"))))) && AllSpace(b) && Body(ms, ds, b', text)
    ensures Body([m] + ms, ds, b, line + (b' + text))
  {
    hide Written, AllSpace, IsName, R.BlanksFit, IsDigits;
    var bs :| BodyWith(ms, ds, b', text, bs);
    ArrayMember(m, dim, line, b, S.MembersTokens(ms) + S.ProgramTokens(ds), [b'] + bs, b' + text);
    MoreBody(m, ms, ds, b, line, ["", "", "", " ", ""], b', text, bs);
  }

  lemma AlignedBody(m: S.MemberForm, dim: S.IntText, alignment: S.IntText, ms: seq<S.MemberForm>, ds: seq<S.StructForm>,
                    b: string, line: string, b': string, text: string)
    requires m.dims == Some([dim]) && !m.comma && m.desc == None && m.alignment == Some(alignment)
    requires IsName(m.typeName) && IsName(m.name)
    requires line == m.typeName + ("[" + (dim + ("]" + (" " + (m.name + (" " + (alignment + ";")))))))
    requires AllSpace(b) && Body(ms, ds, b', text)
    ensures Body([m] + ms, ds, b, line + (b' + text))
  {
    hide Written, AllSpace, IsName, R.BlanksFit, IsDigits;
    var bs :| BodyWith(ms, ds, b', text, bs);
    AlignedMember(m, dim, alignment, line, b, S.MembersTokens(ms) + S.ProgramTokens(ds), [b'] + bs, b' + text);
    MoreBody(m, ms, ds, b, line, ["", "", "", " ", " ", ""], b', text, bs);
  }

  lemma KeywordIsName()
    ensures STRUCT == "struct" && IsName(STRUCT)
  {
  }

  /** struct name, behind the blanks b and before the rest of the head. */
  lemma HeadWritten(name: string, b: string, ts: seq<Token>, bs: seq<string>, rest: string)
    requires IsName(name) && AllSpace(b) && Written(ts, bs, rest) && EndsName(rest)
    ensures Written([Token(STRUCT, Identifier), Token(name, Identifier)] + ts, [b, " "] + bs, b + ("struct" + (" " + (name + rest))))
  {
    hide Written, IsName, AllSpace;
    OneSpace();
    KeywordIsName();
    NameWritten(name, " ", ts, bs, rest);
    NameWritten(STRUCT, b, [Token(name, Identifier)] + ts, [" "] + bs, " " + (name + rest));
    assert [Token(STRUCT, Identifier), Token(name, Identifier)] + ts == [Token(STRUCT, Identifier)] + ([Token(name, Identifier)] + ts);
    assert [b, " "] + bs == [b] + ([" "] + bs);
  }

  /** A whole struct in front of a program, given its head. */
  lemma MoreProgram(d: S.StructForm, ds: seq<S.StructForm>, lead: string, line: string, b: string, text: string,
                    head: seq<string>, bs: seq<string>)
    requires d.members != [] && |b| >= |d.members[0].typeName| && |head| == |S.HeadTokens(d)|
    requires BodyWith(d.members, ds, b, text, bs)
    requires Written(S.HeadTokens(d) + (S.MembersTokens(d.members) + S.ProgramTokens(ds)), head + ([b] + bs),
                     lead + (line + (b + text)))
    ensures Program([d] + ds, lead + (line + (b + text)))
  {
    hide Written, S.HeadTokens, S.MembersTokens;
    assert ([d] + ds)[1..] == ds;
    assert S.ProgramTokens([d] + ds) == S.HeadTokens(d) + (S.MembersTokens(d.members) + S.ProgramTokens(ds));
    FitBehind(head, [b] + bs, |S.MembersTokens(d.members)|, ds);
    var all := head + ([b] + bs);
    assert all[|head|] == b;
    assert R.BlanksFit(all, 0, [d] + ds);
  }

  /** struct name { */
  lemma PlainStruct(d: S.StructForm, ds: seq<S.StructForm>, lead: string, line: string, b: string, text: string)
    requires d.desc == None && d.alignment == None && IsName(d.name) && AllSpace(lead)
    requires line == "struct" + (" " + (d.name + (" " + "{")))
    requires d.members != [] && |b| >= |d.members[0].typeName| && Body(d.members, ds, b, text)
    ensures Program([d] + ds, lead + (line + (b + text)))
  {
    hide Written, IsName, AllSpace, S.MembersTokens, S.TailTokens, R.BlanksFit;
    OneSpace();
    var bs :| BodyWith(d.members, ds, b, text, bs);
    var ts := S.MembersTokens(d.members) + S.ProgramTokens(ds);
    MarkTail('{', " ", ts, [b] + bs, b + text);
    var ts1, bs1, rest := S.TailTokens(None, None, '{') + ts, [" "] + ([b] + bs), " " + (['{'] + (b + text));
    HeadWritten(d.name, lead, ts1, bs1, rest);
    assert S.HeadTokens(d) + ts == [Token(STRUCT, Identifier), Token(d.name, Identifier)] + ts1;
    assert [lead, " ", " "] + ([b] + bs) == [lead, " "] + bs1;
    assert line + (b + text) == "struct" + (" " + (d.name + rest));
    HeadLength(d);
    MoreProgram(d, ds, lead, line, b, text, [lead, " ", " "], bs);
  }

  lemma HeadLength(d: S.StructForm)
    requires d.alignment == None
    ensures |S.HeadTokens(d)| == if d.desc == None then 3 else 4
  {
  }

  /** struct name 'description'{ */
  lemma DescStruct(d: S.StructForm, desc: string, ds: seq<S.StructForm>, lead: string, line: string, b: string, text: string)
    requires d.desc == Some(desc) && d.alignment == None && IsName(d.name) && AllSpace(lead)
    requires NoEscapes(desc)
    requires line == "struct" + (" " + (d.name + (" " + ("'" + (desc + ("'" + "{"))))))
    requires d.members != [] && |b| >= |d.members[0].typeName| && Body(d.members, ds, b, text)
    ensures Program([d] + ds, lead + (line + (b + text)))
  {
    hide Written, IsName, AllSpace, S.MembersTokens, S.TailTokens, R.BlanksFit;
    var bs :| BodyWith(d.members, ds, b, text, bs);
    var ts := S.MembersTokens(d.members) + S.ProgramTokens(ds);
    DescTail(desc, '{', ts, [b] + bs, b + text);
    var ts1, bs1 := S.TailTokens(Some(desc), None, '{') + ts, [" ", ""] + ([b] + bs);
    var rest := " " + ("'" + (desc + ("'" + (['{'] + (b + text)))));
    HeadWritten(d.name, lead, ts1, bs1, rest);
    assert S.HeadTokens(d) + ts == [Token(STRUCT, Identifier), Token(d.name, Identifier)] + ts1;
    assert [lead, " ", " ", ""] + ([b] + bs) == [lead, " "] + bs1;
    assert line + (b + text) == "struct" + (" " + (d.name + rest));
    HeadLength(d);
    MoreProgram(d, ds, lead, line, b, text, [lead, " ", " ", ""], bs);
  }

  // ----- The text, cut before and behind its blanks -----

  const D2: S.IntText := "2"
  const D4: S.IntText := "4"
  const D64: S.IntText := "64"

  function Plain(typeName: string, name: string): S.MemberForm { S.MemberForm(typeName, None, false, name, None, None) }

  function Array(typeName: string, dim: S.IntText, name: string): S.MemberForm {
    S.MemberForm(typeName, Some([dim]), false, name, None, None)
  }

  function DescC(): S.MemberForm { S.MemberForm("i64", None, false, "c", Some("this is a desc"), None) }

  function AlignedB(): S.MemberForm { S.MemberForm("C", Some([D2]), false, "b", None, Some(D64)) }

  function AEndMembers(): seq<S.MemberForm> {
    [Plain("B", "e"),
     Plain("i32", "f"),
     Plain("i8", "g"),
     Array("char", D64, "str"),
     Plain("mat4x4", "i")]
  }

  function AEndBody(): string {
    "B e;" + ("\t\t\t\t\n\t" + (
    "i32 f;" + ("\t\t\t\t\n\t" + (
    "i8 g;" + ("\t\t\t\t\n\t" + (
    "char[64] str;" + ("\t\t\t\n\t" + (
    "mat4x4 i;" + ("\t\t\t\n" + (
    "}" + ""))))))))))
  }

  function AMembers(): seq<S.MemberForm> {
    [Plain("i32", "a")] +
    ([Array("i8", D4, "b")] +
    ([DescC()] +
    ([Plain("i8", "d")] + AEndMembers())))
  }

  function ABody(): string {
    "i32 a;" + ("\t\t\t\t\n\t" + (
    "i8[4] b;" + ("\t\t\t\n\t" + (
    "i64 c 'this is a desc';" + ("\t\t\n\t" + (
    "i8 d;" + ("\t\t\t\t\n\t" + (
    AEndBody()))))))))
  }

  function AText(): string { "\t\t\t\t\t\n" + ("struct A {" + ("\t\t\t\t\n\t" + ABody())) }

  function AForm(): S.StructForm { S.StructForm("A", None, None, AMembers()) }

  function BMembers(): seq<S.MemberForm> {
    [Plain("i32", "a"),
     AlignedB(),
     Plain("i32", "c"),
     Plain("i32", "d")]
  }

  function BBody(): string {
    "i32 a;" + ("\t\t\t\t\n\t" + (
    "C[2] b 64;" + ("\t\t\t\n\t" + (
    "i32 c;" + ("\t\t\t\t\n\t" + (
    "i32 d;" + ("\t\t\t\t\n" + (
    "}" + AText()))))))))
  }

  function BText(): string { "\t\t\t\t\t\n" + ("struct B {" + ("\t\t\t\t\n\t" + BBody())) }

  function BForm(): S.StructForm { S.StructForm("B", None, None, BMembers()) }

  function CMembers(): seq<S.MemberForm> {
    [Plain("i8", "a")]
  }

  function CBody(): string {
    "i8 a;" + ("\t\t\t\t\n" + (
    "}" + BText()))
  }

  function CText(): string { "" + ("struct C 'hello, world'{" + ("\t\t\n\t" + CBody())) }

  function CForm(): S.StructForm { S.StructForm("C", Some("hello, world"), None, CMembers()) }

  lemma Blanks()
    ensures AllSpace("\t\t\n\t") && AllSpace("\t\t\t\n\t") && AllSpace("\t\t\t\t\n\t")
    ensures AllSpace("") && AllSpace("\t\t\t\n") && AllSpace("\t\t\t\t\n") && AllSpace("\t\t\t\t\t\n")
  {
  }

  lemma Descriptions()
    ensures NoEscapes("this is a desc") && NoEscapes("hello, world")
  {
  }

  lemma DescLines()
    ensures "i64 c 'this is a desc';" == "i64" + (" " + ("c" + (" " + ("'" + ("this is a desc" + ("'" + ";"))))))
    ensures "struct C 'hello, world'{" == "struct" + (" " + ("C" + (" " + ("'" + ("hello, world" + ("'" + "{"))))))
  {
  }

  lemma Names()
    ensures IsName("A") && IsName("B") && IsName("C") && IsName("i8") && IsName("i32") && IsName("i64") && IsName("char")
    ensures IsName("mat4x4") && IsName("a") && IsName("b") && IsName("c") && IsName("d") && IsName("e") && IsName("f")
    ensures IsName("g") && IsName("i") && IsName("str")
  {
  }

  lemma AEndBodyWritten()
    ensures Body(AEndMembers(), [], "\t\t\t\t\n\t", AEndBody())
  {
    hide AllSpace, IsName, Body, Program;
    Blanks();
    Names();
    NoProgram();
    EndBody([], "\t\t\t\n", "");
    var text, ms: seq<S.MemberForm> := "}" + "", [];
    PlainBody(Plain("mat4x4", "i"), ms, [], "\t\t\t\n\t", "mat4x4 i;", "\t\t\t\n", text);
    text, ms := "mat4x4 i;" + ("\t\t\t\n" + text), [Plain("mat4x4", "i")] + ms;
    ArrayBody(Array("char", D64, "str"), D64, ms, [], "\t\t\t\t\n\t", "char[64] str;", "\t\t\t\n\t", text);
    text, ms := "char[64] str;" + ("\t\t\t\n\t" + text), [Array("char", D64, "str")] + ms;
    PlainBody(Plain("i8", "g"), ms, [], "\t\t\t\t\n\t", "i8 g;", "\t\t\t\t\n\t", text);
    text, ms := "i8 g;" + ("\t\t\t\t\n\t" + text), [Plain("i8", "g")] + ms;
    PlainBody(Plain("i32", "f"), ms, [], "\t\t\t\t\n\t", "i32 f;", "\t\t\t\t\n\t", text);
    text, ms := "i32 f;" + ("\t\t\t\t\n\t" + text), [Plain("i32", "f")] + ms;
    PlainBody(Plain("B", "e"), ms, [], "\t\t\t\t\n\t", "B e;", "\t\t\t\t\n\t", text);
    text, ms := "B e;" + ("\t\t\t\t\n\t" + text), [Plain("B", "e")] + ms;
    assert ms == AEndMembers();
  }

  lemma ABodyWritten()
    ensures Body(AMembers(), [], "\t\t\t\t\n\t", ABody())
  {
    hide NoEscapes, AllSpace, IsName, Body, Program, AEndMembers, AEndBody;
    Blanks();
    Descriptions();
    DescLines();
    Names();
    AEndBodyWritten();
    var text, ms := AEndBody(), AEndMembers();
    PlainBody(Plain("i8", "d"), ms, [], "\t\t\n\t", "i8 d;", "\t\t\t\t\n\t", text);
    text, ms := "i8 d;" + ("\t\t\t\t\n\t" + text), [Plain("i8", "d")] + ms;
    DescBody(DescC(), "this is a desc", ms, [], "\t\t\t\n\t", "i64 c 'this is a desc';", "\t\t\n\t", text);
    text, ms := "i64 c 'this is a desc';" + ("\t\t\n\t" + text), [DescC()] + ms;
    ArrayBody(Array("i8", D4, "b"), D4, ms, [], "\t\t\t\t\n\t", "i8[4] b;", "\t\t\t\n\t", text);
    text, ms := "i8[4] b;" + ("\t\t\t\n\t" + text), [Array("i8", D4, "b")] + ms;
    PlainBody(Plain("i32", "a"), ms, [], "\t\t\t\t\n\t", "i32 a;", "\t\t\t\t\n\t", text);
    text, ms := "i32 a;" + ("\t\t\t\t\n\t" + text), [Plain("i32", "a")] + ms;
    assert ms == AMembers();
  }

  lemma BBodyWritten()
    requires Program([AForm()], AText())
    ensures Body(BMembers(), [AForm()], "\t\t\t\t\n\t", BBody())
  {
    hide AllSpace, IsName, Body, Program, AText, AForm;
    Blanks();
    Names();
    EndBody([AForm()], "\t\t\t\t\n", AText());
    var text, ms: seq<S.MemberForm> := "}" + AText(), [];
    PlainBody(Plain("i32", "d"), ms, [AForm()], "\t\t\t\t\n\t", "i32 d;", "\t\t\t\t\n", text);
    text, ms := "i32 d;" + ("\t\t\t\t\n" + text), [Plain("i32", "d")] + ms;
    PlainBody(Plain("i32", "c"), ms, [AForm()], "\t\t\t\n\t", "i32 c;", "\t\t\t\t\n\t", text);
    text, ms := "i32 c;" + ("\t\t\t\t\n\t" + text), [Plain("i32", "c")] + ms;
    AlignedBody(AlignedB(), D2, D64, ms, [AForm()],
      "\t\t\t\t\n\t", "C[2] b 64;", "\t\t\t\n\t", text);
    text, ms := "C[2] b 64;" + ("\t\t\t\n\t" + text), [AlignedB()] + ms;
    PlainBody(Plain("i32", "a"), ms, [AForm()], "\t\t\t\t\n\t", "i32 a;", "\t\t\t\t\n\t", text);
    text, ms := "i32 a;" + ("\t\t\t\t\n\t" + text), [Plain("i32", "a")] + ms;
    assert ms == BMembers();
  }

  lemma CBodyWritten()
    requires Program([BForm(), AForm()], BText())
    ensures Body(CMembers(), [BForm(), AForm()], "\t\t\n\t", CBody())
  {
    hide AllSpace, IsName, Body, Program, BText, AForm, BForm;
    Blanks();
    Names();
    EndBody([BForm(), AForm()], "\t\t\t\t\n", BText());
    var text, ms: seq<S.MemberForm> := "}" + BText(), [];
    PlainBody(Plain("i8", "a"), ms, [BForm(), AForm()], "\t\t\n\t", "i8 a;", "\t\t\t\t\n", text);
    text, ms := "i8 a;" + ("\t\t\t\t\n" + text), [Plain("i8", "a")] + ms;
    assert ms == CMembers();
  }

  lemma AWritten()
    ensures Program([AForm()], AText())
  {
    hide AllSpace, IsName, Body, Program, ABody, AMembers;
    Blanks();
    Names();
    ABodyWritten();
    FirstTypes();
    PlainStruct(AForm(), [], "\t\t\t\t\t\n", "struct A {", "\t\t\t\t\n\t", ABody());
    assert [AForm()] + [] == [AForm()];
  }

  lemma BWritten()
    ensures Program([BForm(), AForm()], BText())
  {
    hide AllSpace, IsName, Body, Program, BBody, BMembers, AForm;
    Blanks();
    Names();
    AWritten();
    BBodyWritten();
    FirstTypes();
    PlainStruct(BForm(), [AForm()], "\t\t\t\t\t\n", "struct B {", "\t\t\t\t\n\t", BBody());
    assert [BForm()] + [AForm()] == [BForm(), AForm()];
  }

  /** The whole text holds these definitions, with enough blanks behind every brace. */
  lemma TextWritten()
    ensures Program([CForm(), BForm(), AForm()], CText())
  {
    hide NoEscapes, AllSpace, IsName, Body, Program, CBody, CMembers, AForm, BForm;
    Blanks();
    Descriptions();
    DescLines();
    Names();
    BWritten();
    CBodyWritten();
    FirstTypes();
    DescStruct(CForm(), "hello, world", [BForm(), AForm()], "", "struct C 'hello, world'{", "\t\t\n\t", CBody());
    assert [CForm()] + [BForm(), AForm()] == [CForm(), BForm(), AForm()];
  }

  lemma FirstTypes()
    ensures AMembers() != [] && AMembers()[0].typeName == "i32" && BMembers() != [] && BMembers()[0].typeName == "i32"
    ensures CMembers() != [] && CMembers()[0].typeName == "i8"
  {
  }

  // ----- What it means -----

  function Defs(): seq<StructDef> { [CDef(), BDef(), ADef()] }

  function CDef(): StructDef { StructDef("C", "hello, world", 1, [MemberDef("i8", [], "a", "", 1)]) }

  function BDef(): StructDef {
    StructDef("B", "", 1, [MemberDef("i32", [], "a", "", 1), MemberDef("C", [2], "b", "", 64),
                           MemberDef("i32", [], "c", "", 1), MemberDef("i32", [], "d", "", 1)])
  }

  function ADef(): StructDef {
    StructDef("A", "", 1, [MemberDef("i32", [], "a", "", 1), MemberDef("i8", [4], "b", "", 1),
                           MemberDef("i64", [], "c", "this is a desc", 1), MemberDef("i8", [], "d", "", 1)] + AEndDefs())
  }

  function AEndDefs(): seq<MemberDef> {
    [MemberDef("B", [], "e", "", 1), MemberDef("i32", [], "f", "", 1), MemberDef("i8", [], "g", "", 1),
     MemberDef("char", [64], "str", "", 1), MemberDef("mat4x4", [], "i", "", 1)]
  }

  lemma Types()
    ensures TypeNamed("i8") == I8 && TypeNamed("i32") == I32 && TypeNamed("i64") == I64 && TypeNamed("char") == Char
    ensures TypeNamed("mat4x4") == Mat4x4 && TypeNamed("B") == TypeNamed("C") == Invalid
  {
  }

  lemma Dims()
    ensures Number(D2) == 2 && Number(D4) == 4 && Number(D64) == 64
    ensures S.Numbers([D2]) == [2] && S.Numbers([D4]) == [4] && S.Numbers([D64]) == [64]
  {
    assert D64[..1] == "6" && D64[..1][..0] == "";
    assert [D2][1..] == [] && [D4][1..] == [] && [D64][1..] == [];
  }

  lemma {:induction false} MembersMeanAll(ms: seq<S.MemberForm>, defs: seq<MemberDef>)
    requires |ms| == |defs| && forall i | 0 <= i < |ms| :: S.MemberMeans(ms[i]) == defs[i]
    ensures S.MembersMean(ms) == defs
  {
    hide S.MemberMeans;
    if ms != [] {
      MembersMeanAll(ms[1..], defs[1..]);
      assert defs == [defs[0]] + defs[1..];
    }
  }

  lemma CMeans()
    ensures S.StructMeans(CForm()) == CDef() && S.StructOk(CForm(), {})
  {
    hide Number, IsName, TypeNamed;
    Names();
    Types();
    MembersMeanAll(CMembers(), CDef().members);
  }

  lemma BMeans()
    ensures S.StructMeans(BForm()) == BDef() && S.StructOk(BForm(), {"C"})
  {
    hide Number, S.Numbers, IsName, TypeNamed;
    Names();
    Types();
    Dims();
    MembersMeanAll(BMembers(), BDef().members);
  }

  lemma AEndMeans(i: nat)
    requires i < 5
    ensures S.MemberMeans(AEndMembers()[i]) == AEndDefs()[i] && S.MemberOk(AEndMembers()[i], {"C", "B"})
  {
    hide Number, S.Numbers, IsName, TypeNamed;
    Names();
    Types();
    Dims();
  }

  lemma AFrontMeans(i: nat)
    requires i < 4
    ensures S.MemberMeans(AMembers()[i]) == ADef().members[i] && S.MemberOk(AMembers()[i], {"C", "B"})
  {
    hide Number, S.Numbers, IsName, TypeNamed, AEndMembers, AEndDefs;
    Names();
    Types();
    Dims();
  }

  lemma AMeans()
    ensures S.StructMeans(AForm()) == ADef() && S.StructOk(AForm(), {"C", "B"})
  {
    hide S.MemberMeans, S.MemberOk, IsName;
    Names();
    var ms, defs := AMembers(), ADef().members;
    forall i | 0 <= i < 9
      ensures S.MemberMeans(ms[i]) == defs[i] && S.MemberOk(ms[i], {"C", "B"})
    {
      if i < 4 {
        AFrontMeans(i);
      } else {
        AEndMeans(i - 4);
        assert ms[i] == AEndMembers()[i - 4] && defs[i] == AEndDefs()[i - 4];
      }
    }
    MembersMeanAll(ms, defs);
  }

  lemma TextMeans()
    ensures S.ProgramMeans([CForm(), BForm(), AForm()]) == Defs() && S.ProgramOk([CForm(), BForm(), AForm()], {})
  {
    hide CForm, BForm, AForm, CDef, BDef, ADef, S.StructMeans, S.StructOk;
    CMeans();
    BMeans();
    AMeans();
    FormNames();
    var ds := [CForm(), BForm(), AForm()];
    assert ds[1..] == [BForm(), AForm()] && ds[1..][1..] == [AForm()] && ds[1..][1..][1..] == [];
    assert {} + {"C"} == {"C"} && {"C"} + {"B"} == {"C", "B"};
  }

  lemma FormNames()
    ensures CForm().name == "C" && BForm().name == "B"
  {
  }

  lemma TextReads()
    ensures |CText()| < TWO_32 && ReadProgram(CText(), 0, {}) == Some(Defs())
  {
    hide Written, S.ProgramTokens, S.ProgramOk, S.ProgramMeans, R.BlanksFit, R.Render, R.Apart, ReadProgram, CText,
      CForm, BForm, AForm, Defs;
    TextLength();
    TextWritten();
    TextMeans();
    var ds := [CForm(), BForm(), AForm()];
    var bs :| Written(S.ProgramTokens(ds), bs, CText()) && R.BlanksFit(bs, 0, ds);
    WrittenIs(S.ProgramTokens(ds), bs, CText());
    R.RenderReadsBackIff(ds, bs);
  }

  lemma WrittenIs(ts: seq<Token>, bs: seq<string>, text: string)
    requires Written(ts, bs, text)
    ensures |bs| == |ts| + 1 && R.Apart(ts, bs) && R.Render(ts, bs) == text
  {
  }

  lemma TextLength()
    ensures |CText()| < 1000
  {
  }

  // ----- What is built -----

  /** Member i lies at this offset and has this size. */
  predicate Lies(s: Struct, i: nat, offset: nat, size: nat) {
    i < |s.members| && s.members[i].offset == offset && s.members[i].size == size
  }

  /** The first place behind the member before. */
  lemma Next(s: Struct, i: nat, end: nat, align: nat)
    requires Packed(s.members) && i < |s.members| && Effective(s.members[i]) == align
    requires if i == 0 then end == 0 else end == s.members[i - 1].offset + s.members[i - 1].size
    ensures align > 0 && s.members[i].offset == AlignUp(end, align)
  {
    hide Effective, AlignUp;
    assert i > 0 ==> s.members[..i][i - 1] == s.members[i - 1];
  }

  lemma TimesOne(size: nat, d: nat)
    ensures Times(size, []) == size && Times(size, [d]) == size * d
  {
    assert [d][..0] == [];
  }

  lemma MemberIs(s: Struct, d: StructDef, structs: seq<Struct>, index: map<string, nat>, i: nat)
    requires P.Defined(s, d, structs, index) && i < |d.members|
    ensures Packed(s.members) && i < |s.members| && ElementOk(s.members[i])
    ensures (forall n <- index :: index[n] < |structs|) && P.MemberRead(s.members[i], d.members[i], structs, index)
  {
    hide Packed, ElementOk, MaxEffective, P.MemberRead, AlignUp;
  }

  lemma StructIs(s: Struct, d: StructDef, structs: seq<Struct>, index: map<string, nat>)
    requires P.Defined(s, d, structs, index)
    ensures s.name == d.name && s.desc == d.desc && |s.members| == |d.members| && StructOk(s)
    ensures s.alignment == Max(d.alignment, MaxEffective(s.members))
    ensures s.alignment > 0 && s.size == AlignUp(EndOf(s.members), s.alignment)
  {
    hide Packed, ElementOk, P.MemberRead, AlignUp;
  }

  /** A member of basic type without dimensions. */
  lemma BasicIs(e: Element, m: MemberDef, structs: seq<Struct>, index: map<string, nat>, kind: MemberType)
    requires (forall n <- index :: index[n] < |structs|) && P.MemberRead(e, m, structs, index) && ElementOk(e)
    requires TypeNamed(m.typeName) == kind != Invalid && kind != Structure && m.arrays == [] && m.alignment == 1
    ensures e.size == BasicSize(kind) && Effective(e) == BasicAlign(kind) && e.kind == kind
  {
    hide TypeNamed;
    TimesOne(BasicSize(kind), 0);
  }

  lemma ArrayIs(e: Element, m: MemberDef, structs: seq<Struct>, index: map<string, nat>, kind: MemberType, d: nat)
    requires (forall n <- index :: index[n] < |structs|) && P.MemberRead(e, m, structs, index) && ElementOk(e)
    requires TypeNamed(m.typeName) == kind != Invalid && kind != Structure && m.arrays == [d] && m.alignment == 1
    ensures e.size == BasicSize(kind) * d && Effective(e) == BasicAlign(kind) && e.kind == kind
  {
    hide TypeNamed;
    TimesOne(BasicSize(kind), d);
  }

  /** A number aligned. */
  lemma Aligned(x: nat, a: nat, r: nat)
    requires a > 0 && r % a == 0 && x <= r < x + a
    ensures AlignUp(x, a) == r
  {
    hide AlignUp, Divides;
    AlignUpBounds(x, a);
    RemainderIs(r, a);
    AlignUpLeast(x, a, r);
    MultiplesApart(a, r, AlignUp(x, a));
  }

  lemma RemainderIs(r: nat, a: nat)
    requires a > 0 && r % a == 0
    ensures Divides(a, r)
  {
  }

  lemma EndIs(ms: seq<Element>, end: nat)
    requires ms != [] && ms[|ms| - 1].offset + ms[|ms| - 1].size == end
    ensures EndOf(ms) == end
  {
  }

  /** The largest alignment is that of member i, if no other is larger. */
  lemma MaxIs(ms: seq<Element>, i: nat, m: nat)
    requires i < |ms| && Effective(ms[i]) == m >= 1 && forall j | 0 <= j < |ms| :: Effective(ms[j]) <= m
    ensures MaxEffective(ms) == m
  {
    hide Effective;
    MaxBound(ms, i);
    var j := MaxAttained(ms);
  }

  /** Sizes, alignments and offsets in bytes. */
  predicate CPlaces(c: Struct) {
    |c.members| == 1 && c.size == 1 && c.alignment == 1 && Lies(c, 0, 0, 1)
  }

  predicate BPlaces(b: Struct) {
    && |b.members| == 4 && b.size == 128 && b.alignment == 64
    && Lies(b, 0, 0, 4) && Lies(b, 1, 64, 2) && Lies(b, 2, 68, 4) && Lies(b, 3, 72, 4)
  }

  predicate APlaces(a: Struct) {
    && |a.members| == 9 && a.size == 384 && a.alignment == 64
    && Lies(a, 0, 0, 4) && Lies(a, 1, 4, 4) && Lies(a, 2, 8, 8) && Lies(a, 3, 16, 1) && Lies(a, 4, 64, 128)
    && Lies(a, 5, 192, 4) && Lies(a, 6, 196, 1) && Lies(a, 7, 197, 64) && Lies(a, 8, 272, 64)
  }

  /** Size and alignment of member i. */
  ghost predicate Measures(s: Struct, i: nat, size: nat, align: nat) {
    i < |s.members| && s.members[i].size == size && Effective(s.members[i]) == align
  }

  lemma CIs(c: Struct, d: StructDef, structs: seq<Struct>, index: map<string, nat>)
    requires d == CDef() && P.Defined(c, d, structs, index)
    ensures CPlaces(c)
  {
    hide TypeNamed, StructOk, P.Defined, P.MemberRead, ElementOk, MaxEffective, Effective, AlignUp, Packed, EndOf;
    Types();
    StructIs(c, d, structs, index);
    MemberIs(c, d, structs, index, 0);
    BasicIs(c.members[0], d.members[0], structs, index, I8);
    Next(c, 0, 0, 1);
    Aligned(0, 1, 0);
    EndIs(c.members, 1);
    MaxIs(c.members, 0, 1);
    Aligned(1, 1, 1);
  }

  /** An array of structs, or a struct. */
  lemma SubIs(e: Element, m: MemberDef, structs: seq<Struct>, index: map<string, nat>, sub: Struct)
    requires (forall n <- index :: index[n] < |structs|) && P.MemberRead(e, m, structs, index) && ElementOk(e)
    requires TypeNamed(m.typeName) == Invalid && m.typeName in index && structs[index[m.typeName]] == sub && |m.arrays| <= 1
    ensures e.size == sub.size * (if m.arrays == [] then 1 else m.arrays[0]) && e.sub == Some(sub)
    ensures Effective(e) == Max(sub.alignment, m.alignment)
  {
    hide TypeNamed;
    TimesOne(sub.size, if m.arrays == [] then 1 else m.arrays[0]);
    assert m.arrays == [] || m.arrays == [m.arrays[0]];
  }

  lemma BIs(b: Struct, structs: seq<Struct>, index: map<string, nat>, c: Struct)
    requires P.Defined(b, BDef(), structs, index) && "C" in index && index["C"] < |structs| && structs[index["C"]] == c
    requires c.size == 1 && c.alignment == 1
    ensures BPlaces(b)
  {
    hide TypeNamed, StructOk, P.Defined, P.MemberRead, ElementOk, MaxEffective, Effective, AlignUp, Packed, EndOf;
    Types();
    StructIs(b, BDef(), structs, index);
    forall i | 0 <= i < 4
      ensures Packed(b.members) && ElementOk(b.members[i])
      ensures (forall n <- index :: index[n] < |structs|) && P.MemberRead(b.members[i], BDef().members[i], structs, index)
    {
      MemberIs(b, BDef(), structs, index, i);
    }
    BasicIs(b.members[0], BDef().members[0], structs, index, I32);
    SubIs(b.members[1], BDef().members[1], structs, index, c);
    BasicIs(b.members[2], BDef().members[2], structs, index, I32);
    BasicIs(b.members[3], BDef().members[3], structs, index, I32);
    Next(b, 0, 0, 4);
    Aligned(0, 4, 0);
    Next(b, 1, 4, 64);
    Aligned(4, 64, 64);
    Next(b, 2, 66, 4);
    Aligned(66, 4, 68);
    Next(b, 3, 72, 4);
    Aligned(72, 4, 72);
    EndIs(b.members, 76);
    MaxIs(b.members, 1, 64);
    Aligned(76, 64, 128);
  }

  lemma AFrontIs()
    ensures var ms := ADef().members;
      && |ms| == 9 && ms[0] == MemberDef("i32", [], "a", "", 1) && ms[1] == MemberDef("i8", [4], "b", "", 1)
      && ms[2] == MemberDef("i64", [], "c", "this is a desc", 1) && ms[3] == MemberDef("i8", [], "d", "", 1)
  {
    hide AEndDefs;
    AEndIs();
  }

  lemma AFront(a: Struct, structs: seq<Struct>, index: map<string, nat>)
    requires P.Defined(a, ADef(), structs, index)
    ensures Measures(a, 0, 4, 4) && Measures(a, 1, 4, 1) && Measures(a, 2, 8, 8) && Measures(a, 3, 1, 1)
  {
    hide TypeNamed, StructOk, P.Defined, P.MemberRead, ElementOk, MaxEffective, Effective, AlignUp, Packed, EndOf, ADef;
    Types();
    var ms := ADef().members;
    AFrontIs();
    MemberIs(a, ADef(), structs, index, 0);
    BasicIs(a.members[0], ms[0], structs, index, I32);
    MemberIs(a, ADef(), structs, index, 1);
    ArrayIs(a.members[1], ms[1], structs, index, I8, 4);
    MemberIs(a, ADef(), structs, index, 2);
    BasicIs(a.members[2], ms[2], structs, index, I64);
    MemberIs(a, ADef(), structs, index, 3);
    BasicIs(a.members[3], ms[3], structs, index, I8);
  }

  lemma ABackIs()
    ensures var ms := ADef().members;
      && |ms| == 9 && ms[4] == MemberDef("B", [], "e", "", 1) && ms[5] == MemberDef("i32", [], "f", "", 1)
      && ms[6] == MemberDef("i8", [], "g", "", 1) && ms[7] == MemberDef("char", [64], "str", "", 1)
      && ms[8] == MemberDef("mat4x4", [], "i", "", 1)
  {
    hide ADef;
    AEndIs();
    assert ADef().members[4 + 0] == AEndDefs()[0] && ADef().members[4 + 1] == AEndDefs()[1];
    assert ADef().members[4 + 2] == AEndDefs()[2] && ADef().members[4 + 3] == AEndDefs()[3];
    assert ADef().members[4 + 4] == AEndDefs()[4];
  }

  lemma AEnd(a: Struct, structs: seq<Struct>, index: map<string, nat>, b: Struct)
    requires P.Defined(a, ADef(), structs, index) && "B" in index && index["B"] < |structs| && structs[index["B"]] == b
    requires b.size == 128 && b.alignment == 64
    ensures Measures(a, 4, 128, 64) && Measures(a, 5, 4, 4) && Measures(a, 6, 1, 1)
    ensures Measures(a, 7, 64, 1) && Measures(a, 8, 64, 16)
  {
    hide TypeNamed, StructOk, P.Defined, P.MemberRead, ElementOk, MaxEffective, Effective, AlignUp, Packed, EndOf, ADef,
      AEndDefs;
    Types();
    var ms := ADef().members;
    ABackIs();
    MemberIs(a, ADef(), structs, index, 4);
    SubIs(a.members[4], ms[4], structs, index, b);
    MemberIs(a, ADef(), structs, index, 5);
    BasicIs(a.members[5], ms[5], structs, index, I32);
    MemberIs(a, ADef(), structs, index, 6);
    BasicIs(a.members[6], ms[6], structs, index, I8);
    MemberIs(a, ADef(), structs, index, 7);
    ArrayIs(a.members[7], ms[7], structs, index, Char, 64);
    MemberIs(a, ADef(), structs, index, 8);
    BasicIs(a.members[8], ms[8], structs, index, Mat4x4);
  }

  lemma AEndIs()
    ensures |ADef().members| == 9 && forall i | 0 <= i < 5 :: ADef().members[4 + i] == AEndDefs()[i]
  {
  }

  /** Places of the first members. */
  lemma AFrontLies(a: Struct)
    requires Packed(a.members) && Measures(a, 0, 4, 4) && Measures(a, 1, 4, 1) && Measures(a, 2, 8, 8) && Measures(a, 3, 1, 1)
    ensures Lies(a, 0, 0, 4) && Lies(a, 1, 4, 4) && Lies(a, 2, 8, 8) && Lies(a, 3, 16, 1)
  {
    hide Effective, AlignUp, Packed;
    Next(a, 0, 0, 4);
    Aligned(0, 4, 0);
    Next(a, 1, 4, 1);
    Aligned(4, 1, 4);
    Next(a, 2, 8, 8);
    Aligned(8, 8, 8);
    Next(a, 3, 16, 1);
    Aligned(16, 1, 16);
  }

  lemma AEndLies(a: Struct)
    requires Packed(a.members) && Lies(a, 3, 16, 1)
    requires Measures(a, 4, 128, 64) && Measures(a, 5, 4, 4) && Measures(a, 6, 1, 1)
    requires Measures(a, 7, 64, 1) && Measures(a, 8, 64, 16)
    ensures Lies(a, 4, 64, 128) && Lies(a, 5, 192, 4) && Lies(a, 6, 196, 1) && Lies(a, 7, 197, 64) && Lies(a, 8, 272, 64)
  {
    hide Effective, AlignUp, Packed;
    Next(a, 4, 17, 64);
    Aligned(17, 64, 64);
    Next(a, 5, 192, 4);
    Aligned(192, 4, 192);
    Next(a, 6, 196, 1);
    Aligned(196, 1, 196);
    Next(a, 7, 197, 1);
    Aligned(197, 1, 197);
    Next(a, 8, 261, 16);
    Aligned(261, 16, 272);
  }

  lemma AIs(a: Struct, structs: seq<Struct>, index: map<string, nat>, b: Struct)
    requires P.Defined(a, ADef(), structs, index) && "B" in index && index["B"] < |structs| && structs[index["B"]] == b
    requires b.size == 128 && b.alignment == 64
    ensures APlaces(a)
  {
    hide TypeNamed, StructOk, P.Defined, P.MemberRead, ElementOk, MaxEffective, Effective, AlignUp, Packed, EndOf, AEndDefs;
    AEndIs();
    StructIs(a, ADef(), structs, index);
    MemberIs(a, ADef(), structs, index, 0);
    AFront(a, structs, index);
    AEnd(a, structs, index, b);
    AFrontLies(a);
    AEndLies(a);
    EndIs(a.members, 336);
    MaxIs(a.members, 4, 64);
    Aligned(336, 64, 384);
  }

  /** All members of a definition with different names are added. */
  lemma DifferentNames(ms: seq<MemberDef>)
    requires |ms| < 255 && forall i, j | 0 <= j < i < |ms| :: ms[j].name != ms[i].name
    ensures P.AllAdded(ms)
  {
  }

  lemma AllAdded()
    ensures P.AllAdded(CDef().members) && P.AllAdded(BDef().members) && P.AllAdded(ADef().members)
  {
    hide P.AllAdded;
    DifferentNames(CDef().members);
    DifferentNames(BDef().members);
    DifferentNames(ADef().members);
  }

  lemma BuiltPlaces(structs: seq<Struct>)
    requires P.AllDefined(structs, Defs())
    ensures |structs| == 3 && CPlaces(structs[0]) && BPlaces(structs[1]) && APlaces(structs[2])
  {
    hide P.Defined, P.KnownAfter, CDef, BDef, ADef, CPlaces, BPlaces, APlaces;
    var defs := Defs();
    IndexIs();
    assert P.Defined(structs[0], defs[0], structs[..0], P.KnownAfter(defs[..0]));
    assert P.Defined(structs[1], defs[1], structs[..1], P.KnownAfter(defs[..1]));
    assert P.Defined(structs[2], defs[2], structs[..2], P.KnownAfter(defs[..2]));
    CIs(structs[0], defs[0], structs[..0], P.KnownAfter(defs[..0]));
    SizeOfC(structs[0]);
    BIs(structs[1], structs[..1], P.KnownAfter(defs[..1]), structs[0]);
    SizeOfB(structs[1]);
    AIs(structs[2], structs[..2], P.KnownAfter(defs[..2]), structs[1]);
  }

  lemma SizeOfC(c: Struct)
    requires CPlaces(c)
    ensures c.size == 1 && c.alignment == 1
  {
  }

  lemma SizeOfB(b: Struct)
    requires BPlaces(b)
    ensures b.size == 128 && b.alignment == 64
  {
  }

  lemma IndexIs()
    ensures P.KnownAfter(Defs()[..1]) == map["C" := 0] && P.KnownAfter(Defs()[..2]) == map["C" := 0, "B" := 1]
  {
    var defs := Defs();
    assert defs[..1][..0] == [] && defs[..2][..1] == defs[..1];
    assert defs[..1][0].name == "C" && defs[..2][1].name == "B";
  }

  /** The parser builds just these structs, with every member where it must lie. */
  method ParseStartUpText() returns (structs: seq<Struct>)
    ensures P.AllDefined(structs, Defs())
    ensures |structs| == 3 && CPlaces(structs[0]) && BPlaces(structs[1]) && APlaces(structs[2])
  {
    hide CText, ReadProgram, P.AllDefined, P.ProgramRead, CPlaces, BPlaces, APlaces, P.AllAdded, CDef, BDef, ADef;
    TextReads();
    TextIsNotEmpty();
    var parser := new P.DescriptorParser(CText());
    var result := parser.Parse();
    structs := result.value;
    AllAdded();
    P.BuiltIff(structs, Defs());
    BuiltPlaces(structs);
  }

  lemma TextIsNotEmpty()
    ensures CText() != ""
  {
    assert CText()[0] == 's';
  }
}
