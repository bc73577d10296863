/** The parser of struct descriptions: it reads what the grammar says, for every text, and builds the structs. */
module Parser {
  import opened Basics
  import opened DataTypes
  import opened Lexer
  import opened Reader
  import opened StructLayout
  import S = Syntax
  import C = Crowded

  // ----- What was built -----

  /** The structs read so far, found by name. */
  ghost predicate Known(structs: seq<Struct>, index: map<string, nat>) {
    && (forall i | 0 <= i < |structs| :: StructOk(structs[i]))
    && forall n <- index :: |n| > 0 && index[n] < |structs| && structs[index[n]].name == n
  }

  /** The member as it is defined; of a struct type, it is placed at the struct's alignment at least. */
  predicate MemberRead(e: Element, m: MemberDef, structs: seq<Struct>, index: map<string, nat>)
    requires forall n <- index :: index[n] < |structs|
  {
    && e.name == m.name && e.desc == m.desc && e.arrays == m.arrays
    && if TypeNamed(m.typeName) != Invalid then e.kind == TypeNamed(m.typeName) && e.alignment == m.alignment && e.sub == None
       else
         && m.typeName in index && e.kind == Structure && e.sub == Some(structs[index[m.typeName]])
         && e.alignment == Max(structs[index[m.typeName]].alignment, m.alignment)
  }

  predicate Basic(m: MemberDef) { TypeNamed(m.typeName) != Invalid }

  /** A member of basic type is ignored when its name is taken by another one, or there are 255 members already. */
  predicate IsIgnored(ms: seq<MemberDef>, m: MemberDef) {
    Basic(m) && (|ms| >= 255 || exists i | 0 <= i < |ms| :: Basic(ms[i]) && ms[i].name == m.name)
  }

  /** The members that are added, in order. */
  function Kept(ms: seq<MemberDef>): seq<MemberDef> {
    if ms == [] then []
    else
      var before := Kept(ms[..|ms| - 1]);
      if IsIgnored(before, ms[|ms| - 1]) then before else before + [ms[|ms| - 1]]
  }

  ghost predicate MembersRead(es: seq<Element>, ms: seq<MemberDef>, structs: seq<Struct>, index: map<string, nat>) {
    && (forall n <- index :: index[n] < |structs|)
    && |es| == |ms| && forall j | 0 <= j < |es| :: MemberRead(es[j], ms[j], structs, index)
  }

  /** The compiled struct is the one that is defined: its members in order, and the larger of all alignments. */
  ghost predicate StructRead(s: Struct, d: StructDef, structs: seq<Struct>, index: map<string, nat>) {
    && s.name == d.name && s.desc == d.desc && StructOk(s)
    && s.alignment == Max(d.alignment, MaxEffective(s.members))
    && MembersRead(s.members, Kept(d.members), structs, index)
  }

  /** The names of the structs that are defined, with their places. */
  function KnownAfter(defs: seq<StructDef>): map<string, nat> {
    if defs == [] then map[] else KnownAfter(defs[..|defs| - 1])[defs[|defs| - 1].name := |defs| - 1]
  }

  /** Every struct is built from its definition, with the structs before it as types. */
  ghost predicate ProgramRead(structs: seq<Struct>, defs: seq<StructDef>) {
    |structs| == |defs| && forall i | 0 <= i < |structs| :: StructRead(structs[i], defs[i], structs[..i], KnownAfter(defs[..i]))
  }

  lemma KnownOk(structs: seq<Struct>, index: map<string, nat>, n: string)
    requires Known(structs, index) && n in index
    ensures |n| > 0 && index[n] < |structs| && StructOk(structs[index[n]])
  {
  }

  lemma KnownMore(structs: seq<Struct>, index: map<string, nat>, s: Struct)
    requires Known(structs, index) && StructOk(s) && s.name != ""
    ensures Known(structs + [s], index[s.name := |structs|])
  {
    hide StructOk;
  }

  lemma NoneRead(structs: seq<Struct>, index: map<string, nat>)
    requires Known(structs, index)
    ensures MembersRead([], Kept([]), structs, index) && NoStructs(Kept([]))
  {
  }

  lemma NotIgnored(ms: seq<MemberDef>, m: MemberDef)
    requires !Basic(m)
    ensures !IsIgnored(ms, m)
  {
  }

  predicate NoStructs(ms: seq<MemberDef>) {
    forall i | 0 <= i < |ms| :: TypeNamed(ms[i].typeName) != Structure
  }

  lemma KeptMore(ms: seq<MemberDef>, m: MemberDef)
    requires NoStructs(Kept(ms)) && TypeNamed(m.typeName) != Structure
    ensures NoStructs(Kept(ms + [m]))
  {
    hide TypeNamed, IsIgnored;
    assert (ms + [m])[..|ms|] == ms;
  }

  /** A basic member is ignored just when the descriptor would ignore it. */
  lemma IgnoredIs(es: seq<Element>, ms: seq<MemberDef>, m: MemberDef, structs: seq<Struct>, index: map<string, nat>)
    requires MembersRead(es, ms, structs, index) && Basic(m) && NoStructs(ms)
    ensures IsIgnored(ms, m) <==> Named(es, m.name) || |es| >= 255
  {
    hide TypeNamed;
    if Named(es, m.name) {
      var i :| 0 <= i < |es| && es[i].kind != Structure && es[i].name == m.name;
      assert MemberRead(es[i], ms[i], structs, index);
    }
    forall i | 0 <= i < |ms| && Basic(ms[i]) && ms[i].name == m.name
      ensures Named(es, m.name)
    {
      assert MemberRead(es[i], ms[i], structs, index);
    }
  }

  /** One more member, added or ignored. */
  lemma ReadOneMore(before: seq<Element>, after: seq<Element>, ms: seq<MemberDef>, m: MemberDef, structs: seq<Struct>, index: map<string, nat>)
    requires MembersRead(before, Kept(ms), structs, index)
    requires if IsIgnored(Kept(ms), m) then after == before
             else |after| == |before| + 1 && after[..|before|] == before && MemberRead(after[|before|], m, structs, index)
    ensures MembersRead(after, Kept(ms + [m]), structs, index)
  {
    hide MemberRead, IsIgnored;
    assert (ms + [m])[..|ms|] == ms;
    var kept := Kept(ms + [m]);
    forall j | 0 <= j < |after|
      ensures MemberRead(after[j], kept[j], structs, index)
    {
      if j < |before| {
        assert after[..|before|][j] == before[j];
        assert MemberRead(before[j], Kept(ms)[j], structs, index);
      }
    }
  }

  lemma ProgramMore(defs: seq<StructDef>, d: StructDef, before: seq<Struct>, structs: seq<Struct>)
    requires ProgramRead(before, defs) && |structs| == |before| + 1 && structs[..|before|] == before
    requires StructRead(structs[|before|], d, before, KnownAfter(defs))
    ensures ProgramRead(structs, defs + [d]) && KnownAfter(defs + [d]) == KnownAfter(defs)[d.name := |before|]
  {
    hide StructRead;
    var done := defs + [d];
    assert done[..|defs|] == defs;
    forall k | 0 <= k < |structs|
      ensures StructRead(structs[k], done[k], structs[..k], KnownAfter(done[..k]))
    {
      if k < |defs| {
        assert structs[..|before|][k] == before[k] && structs[..k] == before[..k];
        assert done[..k] == defs[..k] && done[k] == defs[k];
      }
    }
  }

  datatype Progress = More | Done | Error

  // ----- Reading on -----

  /** What was read before comes first. */
  function Onto<T>(done: seq<T>, r: Option<(seq<T>, nat)>): Option<(seq<T>, nat)> {
    match r case None => None case Some((ts, q)) => Some((done + ts, q))
  }

  function OntoAll<T>(done: seq<T>, r: Option<seq<T>>): Option<seq<T>> {
    match r case None => None case Some(ts) => Some(done + ts)
  }

  lemma NothingDone<T>(r: Option<(seq<T>, nat)>)
    ensures Onto([], r) == r
  {
    if r.Some? {
      assert [] + r.value.0 == r.value.0;
    }
  }

  lemma OneDone<T>(done: seq<T>, t: T, r: Option<(seq<T>, nat)>)
    ensures Onto(done, Onto([t], r)) == Onto(done + [t], r)
  {
    if r.Some? {
      Assoc(done, [t], r.value.0);
    }
  }

  lemma OneDoneOfAll<T>(done: seq<T>, t: T, r: Option<seq<T>>)
    ensures OntoAll(done, OntoAll([t], r)) == OntoAll(done + [t], r)
  {
    if r.Some? {
      Assoc(done, [t], r.value);
    }
  }

  lemma HopIs(code: string, p: nat)
    requires p <= |code| && Lex(code, p).Some?
    ensures Hop(code, p) == (Undo(code, p) - Back(Lex(code, p).value.0)) % TWO_32
  {
  }

  /** After one more member, the closing brace or what the next token is put back to. */
  lemma MoreMembers(code: string, q: nat, known: set<string>, ms: seq<MemberDef>, m: MemberDef, more: nat)
    requires ReadMember(code, q, known) == Some((m, more)) && more <= |code|
    requires Lex(code, more).Some? && Lex(code, more).value.0.kind != EndOfCode
    ensures var (t, r) := Lex(code, more).value;
      Onto(ms, ReadMembers(code, q, known))
      == if t.text == ['}'] then Some((ms + [m], r)) else Onto(ms + [m], ReadMembers(code, Undo(code, more), known))
  {
    hide Lex, ReadMember;
    OneDone(ms, m, ReadMembers(code, Undo(code, more), known));
  }

  class DescriptorParser {
    const code: string
    var position: nat
    var token: string
    var kind: TokenType
    var structs: seq<Struct>
    var index: map<string, nat>

    constructor (code: string)
      ensures this.code == code && position == 0 && structs == [] && index == map[]
    {
      this.code := code;
      position, token, kind, structs, index := 0, "", Other, [], map[];
    }

    /** The current token is the one read from p, and the position is behind it. */
    predicate At(p: nat)
      reads this
    {
      p <= |code| && Lex(code, p) == Some((Token(token, kind), position))
    }

    method EatSpace()
      requires position <= |code|
      modifies this`position
      ensures position == SkipSpace(code, old(position))
    {
      while position < |code| && IsSpace(code[position])
        invariant position <= |code| && SkipSpace(code, position) == SkipSpace(code, old(position))
      {
        position := position + 1;
      }
    }

    /** The next token becomes the current one; fails for a string that is not closed or has an unknown escape. */
    method GetNextToken() returns (ok: bool)
      modifies this`position, this`token, this`kind
      ensures old(position) > |code| ==> ok && token == "" && kind == EndOfCode && position == old(position)
      ensures old(position) <= |code| ==> (ok <==> Lex(code, old(position)).Some?)
      ensures old(position) <= |code| && ok ==> Lex(code, old(position)) == Some((Token(token, kind), position))
      ensures ok && kind != EndOfCode ==> old(position) < position <= |code|
      ensures ok && old(position) <= |code| ==> At(old(position))
      ensures ok && kind == EndOfCode ==> token == ""
      ensures ok && kind == Int ==> IsDigits(token)
    {
      if position <= |code| && Lex(code, position).Some? {
        TokenFacts(code, position);
      }
      token := "";
      if position > |code| {
        kind := EndOfCode;
        return true;
      }
      EatSpace();
      ghost var start := position;
      if position >= |code| {
        kind := EndOfCode;
        return true;
      }
      if IsNumber(code[position]) {
        ScanNumber();
        kind := Int;
      } else if IsIdentifierChar(code[position]) {
        ScanName();
        kind := Identifier;
      } else if code[position] == '\'' {
        position := position + 1;
        ok := ScanQuoted();
        kind := String;
        return ok;
      } else {
        token := token + [code[position]];
        assert token == [code[position]];
        kind := Other;
        position := position + 1;
      }
      return true;
    }

    method ScanNumber()
      requires position <= |code| && token == ""
      modifies this`position, this`token
      ensures position == EndOfNumber(code, old(position)) && token == code[old(position)..position]
    {
      ghost var start := position;
      while position < |code| && IsNumber(code[position])
        invariant start <= position <= |code| && token == code[start..position]
        invariant EndOfNumber(code, position) == EndOfNumber(code, start)
      {
        assert code[start..position + 1] == code[start..position] + [code[position]];
        token := token + [code[position]];
        position := position + 1;
      }
    }

    method ScanName()
      requires position <= |code| && token == ""
      modifies this`position, this`token
      ensures position == EndOfName(code, old(position)) && token == code[old(position)..position]
    {
      ghost var start := position;
      while position < |code| && IsIdentifierChar(code[position])
        invariant start <= position <= |code| && token == code[start..position]
        invariant EndOfName(code, position) == EndOfName(code, start)
      {
        assert code[start..position + 1] == code[start..position] + [code[position]];
        token := token + [code[position]];
        position := position + 1;
      }
    }

    /** The characters up to the closing quote. */
    method ScanQuoted() returns (ok: bool)
      requires position <= |code| && token == ""
      modifies this`position, this`token
      ensures ok <==> QuotedText(code, old(position)).Some?
      ensures ok ==> QuotedText(code, old(position)) == Some((token, position))
    {
      NothingRead(QuotedText(code, position));
      while position < |code| && code[position] != '\''
        invariant position <= |code|
        invariant QuotedText(code, old(position))
               == match QuotedText(code, position) { case None => None case Some((t, q)) => Some((token + t, q)) }
      {
        ghost var before, at := token, position;
        if code[position] == '\\' {
          position := position + 1;
          if position >= |code| {
            return false;
          }
          match Unescaped(code[position])
          case None => return false;
          case Some(c) => token := token + [c];
        } else {
          token := token + [code[position]];
        }
        position := position + 1;
        OneMore(code, at, position, before, token);
      }
      if position < |code| {
        position := position + 1;
        assert token + "" == token;
        return true;
      }
      return false;
    }

    /**
     _token_position is a 32-bit unsigned value. Right after a token was read from p, putting it back leads to where it is
     read again, unless it is a string.
     */
    method PutTokenBack(ghost p: nat)
      modifies this`position
      ensures position == (old(position) - Back(Token(token, kind))) % TWO_32
      ensures old(At(p)) && |code| < TWO_32 ==>
                position == Undo(code, p) && (kind != String ==> Lex(code, position) == Lex(code, p))
    {
      if At(p) {
        TokenFacts(code, p);
        if kind != String {
          UndoIsExact(code, p);
        }
      }
      position := (position - (|token| + if kind == String then 2 else 0)) % TWO_32;
    }

    /** A basic type, or a struct defined before. */
    method ParseTypename() returns (ok: bool, t: MemberType, structName: string)
      ensures ok <==> kind == Identifier && (TypeNamed(token) != Invalid || token in index)
      ensures ok ==> if TypeNamed(token) != Invalid then t == TypeNamed(token) && structName == ""
                     else t == Structure && structName == token
    {
      if kind == Identifier {
        t := TypeNamed(token);
        if t == Invalid {
          if token in index {
            return true, Structure, token;
          }
          return false, Invalid, "";
        }
        return true, t, "";
      }
      return false, Invalid, "";
    }

    /** std::stoi on a token of digits: out of range fails. */
    method ToInt() returns (ok: bool, n: nat)
      requires IsDigits(token)
      ensures ok == (Number(token) <= MAX_INT) && n == Number(token)
    {
      n := Number(token);
      ok := n <= MAX_INT;
    }

    /** One dimension, and the comma and the next token or the closing bracket behind it. */
    method ParseDimension(ghost p: nat) returns (ok: bool, n: nat, ghost q: nat)
      requires At(p) && (kind == Int ==> IsDigits(token)) && token != [']']
      modifies this`position, this`token, this`kind
      ensures !ok ==> ReadDims(code, p) == None
      ensures ok ==> p < q && At(q) && (kind == Int ==> IsDigits(token)) && ReadDims(code, p) == Onto([n], ReadDims(code, q))
    {
      hide Lex, Number, IsDigits;
      TokenFacts(code, p);
      n, q := 0, p;
      if kind != Int {
        return false, 0, p;
      }
      ok, n := ToInt();
      if !ok {
        return false, 0, p;
      }
      q := position;
      ok := GetNextToken();
      if !ok {
        return false, 0, p;
      }
      if token == [','] {
        q := position;
        ok := GetNextToken();
        return ok, n, q;
      }
      if token != [']'] {
        return false, 0, p;
      }
      assert [n] + [] == [n];
    }

    /** The dimensions in brackets, or none and the token is put back. */
    method ParseArrayInfo(ghost p: nat) returns (ok: bool, result: seq<nat>)
      requires At(p) && |code| < TWO_32
      modifies this`position, this`token, this`kind
      ensures ReadArray(code, p) == if ok then Some((result, position)) else None
    {
      hide Lex;
      result := [];
      if token != ['['] {
        PutTokenBack(p);
        return true, [];
      }
      ghost var first, q := position, position;
      ok := GetNextToken();
      if !ok {
        return false, [];
      }
      NothingDone(ReadDims(code, first));
      while token != [']']
        invariant At(q) && (kind == Int ==> IsDigits(token))
        invariant Onto(result, ReadDims(code, q)) == ReadDims(code, first)
        decreases |code| - q
      {
        var n;
        ghost var next;
        ok, n, next := ParseDimension(q);
        if !ok {
          return false, [];
        }
        OneDone(result, n, ReadDims(code, next));
        result, q := result + [n], next;
      }
      assert result + [] == result;
      ok := true;
    }

    method ParseElementName(ghost p: nat) returns (ok: bool, name: string)
      requires At(p)
      ensures Reader.ReadName(code, p) == if ok then Some((name, position)) else None
    {
      hide Lex;
      TokenFacts(code, p);
      if kind != Identifier {
        return false, "";
      }
      return true, token;
    }

    /** The text of a string; any other token is put back. */
    method ParseDescText(ghost p: nat) returns (text: string)
      requires At(p) && |code| < TWO_32
      modifies this`position
      ensures ReadDesc(code, p) == Some((text, position))
    {
      hide Lex;
      if kind != String {
        PutTokenBack(p);
        return "";
      }
      return token;
    }

    /** The value of an integer as 16 bits; any other token is put back, for an alignment of 1. */
    method ParseAlignment(ghost p: nat) returns (ok: bool, alignment: nat)
      requires At(p) && |code| < TWO_32 && (kind == Int ==> IsDigits(token))
      modifies this`position
      ensures ReadAlignment(code, p) == if ok then Some((alignment, position)) else None
    {
      hide Lex, Number;
      if kind != Int {
        PutTokenBack(p);
        return true, 1;
      }
      var n;
      ok, n := ToInt();
      alignment := n % 65536;
    }

    /** An optional description and an optional alignment, then a mark. */
    method ParseTail(mark: char) returns (ok: bool, desc: string, alignment: nat)
      requires position <= |code| < TWO_32
      modifies this`position, this`token, this`kind
      ensures ReadTail(code, old(position), mark) == if ok then Some((desc, alignment, position)) else None
    {
      hide Lex;
      desc, alignment := "", 1;
      ghost var p := position;
      ok := GetNextToken();
      if !ok {
        return;
      }
      desc := ParseDescText(p);
      p := position;
      ok := GetNextToken();
      if !ok {
        return;
      }
      ok, alignment := ParseAlignment(p);
      if !ok {
        return;
      }
      p := position;
      ok := GetNextToken();
      if ok {
        TokenFacts(code, p);
        ok := token == [mark];
      }
    }

    /** Type, dimensions and name of a member. */
    method ParseFront() returns (ok: bool, t: MemberType, structName: string, arrays: seq<nat>, name: string)
      requires |code| < TWO_32
      modifies this`position, this`token, this`kind
      ensures ok ==>
                && old(position) <= |code| && ReadFront(code, old(position)).Some?
                && var (typeName, dims, n, q) := ReadFront(code, old(position)).value;
                arrays == dims && name == n && position == q
                && (TypeNamed(typeName) != Invalid || typeName in index)
                && if TypeNamed(typeName) != Invalid then t == TypeNamed(typeName) && structName == ""
                   else t == Structure && structName == typeName
      ensures !ok && old(position) <= |code| && ReadFront(code, old(position)).Some? ==>
                var typeName := ReadFront(code, old(position)).value.0; TypeNamed(typeName) == Invalid && typeName !in index
    {
      hide Lex, TypeNamed;
      arrays, name := [], "";
      ghost var p := position;
      if p <= |code| && Lex(code, p).Some? {
        TokenFacts(code, p);
      }
      ok := GetNextToken();
      if !ok {
        return false, Invalid, "", [], "";
      }
      ok, t, structName := ParseTypename();
      if !ok {
        return false, Invalid, "", [], "";
      }
      p := position;
      ok := GetNextToken();
      if !ok {
        return false, Invalid, "", [], "";
      }
      ok, arrays := ParseArrayInfo(p);
      if !ok {
        return false, Invalid, "", [], "";
      }
      p := position;
      ok := GetNextToken();
      if !ok {
        return false, Invalid, "", [], "";
      }
      ok, name := ParseElementName(p);
    }

    /** One member, added to the descriptor or ignored by it. */
    method ParseSingle(desc: StructDescriptor, ghost ms: seq<MemberDef>) returns (ok: bool, ghost m: MemberDef)
      requires desc.Valid() && !desc.compiled && Known(structs, index) && |code| < TWO_32
      requires MembersRead(desc.members, Kept(ms), structs, index) && NoStructs(Kept(ms))
      modifies this`position, this`token, this`kind
      modifies desc`structSize, desc`maxMemberAlignment, desc`members, desc`memberNames
      ensures desc.Valid() && !desc.compiled
      ensures ReadMember(code, old(position), index.Keys) == if ok then Some((m, position)) else None
      ensures ok ==> MembersRead(desc.members, Kept(ms + [m]), structs, index) && NoStructs(Kept(ms + [m]))
    {
      hide StructOk, Packed, MembersOk, NamesAre, MaxEffective, EndOf, TypeNamed, Named, ReadFront, ReadTail,
        MembersRead, Kept, NoStructs, IsIgnored;
      ghost var p := position;
      m := MemberDef("", [], "", "", 0);
      var t, structName, arrays, name, text, alignment;
      ok, t, structName, arrays, name := ParseFront();
      if !ok {
        return;
      }
      ok, text, alignment := ParseTail(';');
      if !ok {
        return;
      }
      m := MemberDef(ReadFront(code, p).value.0, arrays, name, text, alignment);
      ghost var before := desc.members;
      if t == Structure {
        if structName !in index {
          return false, m;
        }
        KnownOk(structs, index, structName);
        NotIgnored(Kept(ms), m);
        desc.AddStructureMember(structs[index[structName]], name, text, arrays, alignment, 0);
      } else {
        IgnoredIs(before, Kept(ms), m, structs, index);
        var outcome := desc.AddNormalMember(t, name, text, arrays, alignment, 0);
        assert outcome != Failed;
      }
      ReadOneMore(before, desc.members, ms, m, structs, index);
      KeptMore(ms, m);
    }

    /** The head of a struct definition, up to the opening brace. */
    method ParseHead() returns (done: bool, ok: bool, name: string, desc: string, alignment: nat)
      requires position <= |code| < TWO_32
      modifies this`position, this`token, this`kind
      ensures done <==> ReadHead(code, old(position), index.Keys) == NoMore
      ensures !done ==> ReadHead(code, old(position), index.Keys) == if ok then Head(name, desc, alignment, position) else NoHead
    {
      hide Lex, ReadTail;
      done, ok, name, desc, alignment := false, false, "", "", 1;
      ghost var p := position;
      ok := GetNextToken();
      if !ok {
        return;
      }
      if kind == EndOfCode {
        done := true;
        return;
      }
      if token != STRUCT {
        ok := false;
        return;
      }
      ghost var q := position;
      ok := GetNextToken();
      if !ok {
        return;
      }
      ok, name := ParseElementName(q);
      if !ok || name in index {
        ok := false;
        return;
      }
      ok, desc, alignment := ParseTail('{');
    }

    /** The member that begins with the current token, and the token behind it. */
    method ParseNext(desc: StructDescriptor, ghost ms: seq<MemberDef>, ghost q: nat)
      returns (ok: bool, ghost ms': seq<MemberDef>, ghost q': nat)
      requires desc.Valid() && !desc.compiled && Known(structs, index) && |code| < TWO_32 && token != ['}']
      requires MembersRead(desc.members, Kept(ms), structs, index) && NoStructs(Kept(ms))
      requires (position - Back(Token(token, kind))) % TWO_32 == q
      modifies this`position, this`token, this`kind
      modifies desc`structSize, desc`maxMemberAlignment, desc`members, desc`memberNames
      ensures desc.Valid() && !desc.compiled
      ensures !ok ==> ReadMembers(code, q, index.Keys) == None
      ensures ok ==> MembersRead(desc.members, Kept(ms'), structs, index) && NoStructs(Kept(ms'))
      ensures ok && token == ['}'] ==> Onto(ms, ReadMembers(code, q, index.Keys)) == Some((ms', position))
      ensures ok && token != ['}'] ==>
                && q < q' <= |code| && (position - Back(Token(token, kind))) % TWO_32 == q'
                && Onto(ms, ReadMembers(code, q, index.Keys)) == Onto(ms', ReadMembers(code, q', index.Keys))
    {
      hide Lex, Known, MembersRead, Kept, NoStructs, StructOk, Packed, MembersOk, NamesAre, MaxEffective, EndOf,
        ReadMember, Onto;
      PutTokenBack(position);
      ms', q' := ms, q;
      ghost var m;
      ok, m := ParseSingle(desc, ms);
      if !ok {
        return;
      }
      ghost var more := position;
      ok := GetNextToken();
      if !ok || kind == EndOfCode {
        return false, ms, q;
      }
      MoreMembers(code, q, index.Keys, ms, m, more);
      ms' := ms + [m];
      if token != ['}'] {
        q' := Undo(code, more);
      }
    }

    /**
     The members up to the closing brace. The first token is put back twice: once after the test for an empty struct, and
     again at the start of the loop.
     */
    method ParseMembers(desc: StructDescriptor) returns (ok: bool, ghost ms: seq<MemberDef>)
      requires desc.Valid() && !desc.compiled && desc.members == [] && Known(structs, index) && position <= |code| < TWO_32
      modifies this`position, this`token, this`kind
      modifies desc`structSize, desc`maxMemberAlignment, desc`members, desc`memberNames
      ensures desc.Valid() && !desc.compiled
      ensures ReadBody(code, old(position), index.Keys) == if ok then Some((ms, position)) else None
      ensures ok ==> MembersRead(desc.members, Kept(ms), structs, index)
    {
      hide Lex, Known, MembersRead, Kept, NoStructs, StructOk, Packed, MembersOk, NamesAre, MaxEffective, EndOf,
        ReadMember, Hop;
      ghost var p := position;
      ms := [];
      NoneRead(structs, index);
      ok := GetNextToken();
      if !ok || token == ['}'] {
        return false, [];
      }
      PutTokenBack(p);
      HopIs(code, p);
      ghost var q := Hop(code, p);
      NothingDone(ReadMembers(code, q, index.Keys));
      while token != ['}']
        invariant desc.Valid() && !desc.compiled
        invariant MembersRead(desc.members, Kept(ms), structs, index) && NoStructs(Kept(ms))
        invariant token != ['}'] ==>
                    && (position - Back(Token(token, kind))) % TWO_32 == q
                    && Onto(ms, ReadMembers(code, q, index.Keys)) == ReadMembers(code, Hop(code, p), index.Keys)
        invariant token == ['}'] ==> ReadMembers(code, Hop(code, p), index.Keys) == Some((ms, position))
        decreases token != ['}'], |code| - q
      {
        ok, ms, q := ParseNext(desc, ms, q);
        if !ok {
          return false, [];
        }
      }
      ok := true;
    }

    /** One struct definition, added to those read so far; or nothing more to read. */
    method StartParseStruct() returns (r: Progress, ghost d: StructDef)
      requires Known(structs, index) && position <= |code| < TWO_32
      modifies this
      ensures Known(structs, index)
      ensures ReadStruct(code, old(position), old(index).Keys)
           == match r { case More => Found(d, position) case Done => AtEnd case Error => Malformed }
      ensures r != More ==> structs == old(structs) && index == old(index)
      ensures r == More ==>
                && |structs| == |old(structs)| + 1 && structs[..|old(structs)|] == old(structs)
                && index == old(index)[d.name := |old(structs)|]
                && StructRead(structs[|old(structs)|], d, old(structs), old(index))
    {
      hide Lex, Known, MembersRead, StructOk, Packed, MembersOk, NamesAre, MaxEffective, EndOf, AlignUp, Substrings,
        ReadBody, ReadHead, Kept;
      d := StructDef("", "", 0, []);
      var done, ok, name, text, alignment;
      done, ok, name, text, alignment := ParseHead();
      if done {
        return Done, d;
      }
      if !ok {
        return Error, d;
      }
      var desc := new StructDescriptor(name, text, alignment);
      ghost var ms;
      ok, ms := ParseMembers(desc);
      if !ok {
        return Error, d;
      }
      desc.Compile();
      var s := desc.Snapshot();
      KnownMore(structs, index, s);
      structs := structs + [s];
      index := index[name := |structs| - 1];
      r, d := More, StructDef(name, text, alignment, ms);
    }

    /** Every text is read as the grammar says, and the structs are built from the definitions it holds. */
    method Parse() returns (result: Option<seq<Struct>>)
      requires |code| < TWO_32 && structs == [] && index == map[]
      modifies this
      ensures result.None? <==> code == "" || ReadProgram(code, 0, {}).None?
      ensures result.Some? ==> ProgramRead(result.value, ReadProgram(code, 0, {}).value)
    {
      hide Lex, ReadStruct, ProgramRead, StructRead, Substrings, KnownAfter, Known;
      NothingParsed(code);
      if code == "" {
        return None;
      }
      position := 0;
      ghost var defs: seq<StructDef> := [];
      assert index.Keys == {};
      var r := More;
      while r == More
        invariant Known(structs, index) && (r == More ==> position <= |code|) && index == KnownAfter(defs) && ProgramRead(structs, defs)
        invariant r == More ==> OntoAll(defs, ReadProgram(code, position, index.Keys)) == ReadProgram(code, 0, {})
        invariant r == Done ==> ReadProgram(code, 0, {}) == Some(defs)
        invariant r == Error ==> ReadProgram(code, 0, {}) == None
        decreases r == More, Substrings(code) - index.Keys
      {
        ghost var p, before, names := position, structs, index.Keys;
        ghost var d;
        r, d := StartParseStruct();
        if r == More {
          FewerLeft(Substrings(code), names, d.name);
          OneDoneOfAll(defs, d, ReadProgram(code, position, names + {d.name}));
          ProgramMore(defs, d, before, structs);
          defs := defs + [d];
          assert index.Keys == names + {d.name};
        }
        assert defs + [] == defs;
      }
      if r == Done {
        result := Some(structs);
      } else {
        result := None;
      }
    }
  }

  lemma NothingParsed(code: string)
    ensures OntoAll([], ReadProgram(code, 0, {})) == ReadProgram(code, 0, {})
    ensures Known([], map[]) && KnownAfter([]) == map[] && ProgramRead([], [])
  {
    if ReadProgram(code, 0, {}).Some? {
      assert [] + ReadProgram(code, 0, {}).value == ReadProgram(code, 0, {}).value;
    }
  }

  lemma NothingRead(r: Option<(string, nat)>)
    ensures r == match r { case None => None case Some((t, q)) => Some(("" + t, q)) }
  {
    match r
    case None =>
    case Some((t, q)) => assert "" + t == t;
  }

  lemma OneMore(code: string, at: nat, next: nat, before: string, after: string)
    requires at < next <= |code| && code[at] != '\'' && |after| == |before| + 1 && after[..|before|] == before
    requires if code[at] == '\\' then next == at + 2 && Unescaped(code[at + 1]) == Some(after[|before|])
             else next == at + 1 && after[|before|] == code[at]
    ensures (match QuotedText(code, at) { case None => None case Some((t, q)) => Some((before + t, q)) })
         == match QuotedText(code, next) { case None => None case Some((t, q)) => Some((after + t, q)) }
  {
    match QuotedText(code, next)
    case None =>
    case Some((t, q)) =>
      assert before + ([after[|before|]] + t) == after + t;
  }

  // ----- Definitions that were written are parsed back -----

  /** Every member of basic type is among the first 255, and no member of basic type before it has its name. */
  predicate AllAdded(ms: seq<MemberDef>) {
    forall i | 0 <= i < |ms| && Basic(ms[i]) :: i < 255 && forall j | 0 <= j < i && Basic(ms[j]) :: ms[j].name != ms[i].name
  }

  lemma KeptSnoc(ms: seq<MemberDef>, m: MemberDef)
    ensures Kept(ms + [m]) == if IsIgnored(Kept(ms), m) then Kept(ms) else Kept(ms) + [m]
  {
    hide IsIgnored;
    assert (ms + [m])[..|ms|] == ms;
  }

  /** That is when no member is ignored. If one is, fewer are kept. */
  lemma {:induction false} KeptIff(ms: seq<MemberDef>)
    ensures if AllAdded(ms) then Kept(ms) == ms else |Kept(ms)| < |ms|
  {
    hide Basic, IsIgnored, AllAdded, Kept;
    if ms == [] {
      NoneAdded(ms);
    } else {
      var init, last := ms[..|ms| - 1], ms[|ms| - 1];
      KeptIff(init);
      KeptSnoc(init, last);
      AddedMore(init, last);
      assert ms == init + [last];
    }
  }

  lemma NoneAdded(ms: seq<MemberDef>)
    requires ms == []
    ensures AllAdded(ms) && Kept(ms) == ms
  {
  }

  lemma AddedMore(ms: seq<MemberDef>, m: MemberDef)
    ensures AllAdded(ms + [m]) <==> AllAdded(ms) && !IsIgnored(ms, m)
  {
    hide Basic;
    var more := ms + [m];
    if AllAdded(more) {
      assert more[|ms|] == m;
      forall i | 0 <= i < |ms| && Basic(ms[i])
        ensures i < 255 && forall j | 0 <= j < i && Basic(ms[j]) :: ms[j].name != ms[i].name
      {
        assert more[i] == ms[i];
        forall j | 0 <= j < i && Basic(ms[j])
          ensures ms[j].name != ms[i].name
        {
          assert more[j] == ms[j];
        }
      }
      forall i | 0 <= i < |ms| && Basic(ms[i]) && Basic(m)
        ensures ms[i].name != m.name
      {
        assert more[i] == ms[i];
      }
    }
  }

  /** The first member is never ignored. */
  lemma {:induction false} FirstKept(ms: seq<MemberDef>)
    requires ms != []
    ensures Kept(ms) != [] && Kept(ms)[0] == ms[0]
  {
    if |ms| == 1 {
      assert Kept(ms[..0]) == [];
    } else {
      FirstKept(ms[..|ms| - 1]);
    }
  }

  /** The struct is just the one that is defined, all its members in order. */
  ghost predicate Defined(s: Struct, d: StructDef, structs: seq<Struct>, index: map<string, nat>) {
    && s.name == d.name && s.desc == d.desc && StructOk(s)
    && s.alignment == Max(d.alignment, MaxEffective(s.members))
    && MembersRead(s.members, d.members, structs, index)
  }

  ghost predicate AllDefined(structs: seq<Struct>, defs: seq<StructDef>) {
    && |structs| == |defs|
    && forall i | 0 <= i < |defs| :: Defined(structs[i], defs[i], structs[..i], KnownAfter(defs[..i]))
  }

  /** What is built from definitions is what is defined, if and only if all members are added. */
  lemma BuiltIff(structs: seq<Struct>, defs: seq<StructDef>)
    requires ProgramRead(structs, defs)
    ensures AllDefined(structs, defs) <==> forall i | 0 <= i < |defs| :: AllAdded(defs[i].members)
  {
    hide StructOk, MaxEffective, KnownAfter, MemberRead, AllAdded, Kept;
    forall i | 0 <= i < |defs|
      ensures Defined(structs[i], defs[i], structs[..i], KnownAfter(defs[..i])) <==> AllAdded(defs[i].members)
    {
      assert StructRead(structs[i], defs[i], structs[..i], KnownAfter(defs[..i]));
      KeptIff(defs[i].members);
    }
  }

  // ----- One member cannot come from two type names of different lengths -----

  /** The index leads to structs of the names in it. */
  ghost predicate Leads(structs: seq<Struct>, index: map<string, nat>) {
    forall n <- index :: index[n] < |structs| && structs[index[n]].name == n
  }

  lemma {:induction false} IndexLeads(structs: seq<Struct>, defs: seq<StructDef>)
    requires |structs| == |defs| && forall i | 0 <= i < |defs| :: structs[i].name == defs[i].name
    ensures Leads(structs, KnownAfter(defs))
  {
    if defs != [] {
      var n := |defs| - 1;
      IndexLeads(structs[..n], defs[..n]);
      assert forall i | 0 <= i < n :: structs[..n][i] == structs[i];
    }
  }

  lemma SpelledLength(s: string, t: string, k: MemberType)
    requires Spells(s, k) && Spells(t, k)
    ensures |s| == |t|
  {
    hide TypeName;
    AliasLength(s, k);
    AliasLength(t, k);
  }

  /** The lower-case names are as long as those they stand for. */
  lemma AliasLength(s: string, k: MemberType)
    requires Spells(s, k)
    ensures |s| == |TypeName(k)|
  {
  }

  lemma SameLength(e: Element, m: MemberDef, n: MemberDef, structs: seq<Struct>, index: map<string, nat>)
    requires Leads(structs, index) && MemberRead(e, m, structs, index) && MemberRead(e, n, structs, index)
    ensures |m.typeName| == |n.typeName|
  {
    hide TypeNamed, Spells;
    if TypeNamed(m.typeName) != Invalid && TypeNamed(n.typeName) != Invalid {
      NameExact(m.typeName);
      NameExact(n.typeName);
      SpelledLength(m.typeName, n.typeName, e.kind);
    }
  }

  /** A program whose structs are those of `defs` cannot have been read with a shorter first type. */
  lemma ShorterIsNotDefined(structs: seq<Struct>, out: seq<StructDef>, defs: seq<StructDef>, k: nat)
    requires ProgramRead(structs, out) && C.ShorterAt(out, defs, k)
    ensures !AllDefined(structs, defs)
  {
    hide StructOk, MaxEffective, KnownAfter, MemberRead, Kept, Leads;
    if AllDefined(structs, defs) {
      assert StructRead(structs[k], out[k], structs[..k], KnownAfter(out[..k]));
      assert Defined(structs[k], defs[k], structs[..k], KnownAfter(defs[..k]));
      FirstKept(out[k].members);
      var e := structs[k].members[0];
      assert MemberRead(e, Kept(out[k].members)[0], structs[..k], KnownAfter(out[..k]));
      assert MemberRead(e, defs[k].members[0], structs[..k], KnownAfter(defs[..k]));
      NamesOfDefined(structs, defs, k);
      IndexLeads(structs[..k], defs[..k]);
      SameLength(e, out[k].members[0], defs[k].members[0], structs[..k], KnownAfter(defs[..k]));
    }
  }

  lemma NamesOfDefined(structs: seq<Struct>, defs: seq<StructDef>, k: nat)
    requires AllDefined(structs, defs) && k <= |defs|
    ensures forall i | 0 <= i < k :: structs[..k][i].name == defs[..k][i].name
  {
    hide StructOk, MaxEffective, KnownAfter, MembersRead;
    forall i | 0 <= i < k
      ensures structs[..k][i].name == defs[..k][i].name
    {
      assert Defined(structs[i], defs[i], structs[..i], KnownAfter(defs[..i]));
    }
  }

  /**
   What the parser returns for a text of definitions, in whatever way it is written. The structs are just those that are
   defined if and only if the text is not empty, behind every opening brace there is room for the name of the first
   member's type, and no member of basic type is beyond the first 255 or repeats the name of another one.
   */
  lemma ParsedBackIff(code: string, ds: seq<S.StructForm>, es: seq<nat>, result: Option<seq<Struct>>)
    requires result.None? <==> code == "" || ReadProgram(code, 0, {}).None?
    requires result.Some? ==> ProgramRead(result.value, ReadProgram(code, 0, {}).value)
    requires S.Lexed(code, S.ProgramTokens(ds), es) && S.ProgramOk(ds, {}) && |code| < TWO_32
    ensures var defs := S.ProgramMeans(ds);
      result.Some? && AllDefined(result.value, defs)
      <==> code != "" && S.AllRoom(code, es, 0, ds) && forall i | 0 <= i < |defs| :: AllAdded(defs[i].members)
  {
    hide S.Lexed, S.ProgramTokens, S.ProgramOk, S.AllRoom, S.ProgramMeans, ReadProgram, AllDefined, ProgramRead,
      AllAdded, C.ShorterAt;
    var defs := S.ProgramMeans(ds);
    if S.AllRoom(code, es, 0, ds) {
      S.ReadsBack(code, ds, es);
      if code != "" {
        BuiltIff(result.value, defs);
      }
    } else if result.Some? {
      var k := C.CrowdedFails(code, ds, es);
      ShorterIsNotDefined(result.value, ReadProgram(code, 0, {}).value, defs, k);
    }
  }
}
