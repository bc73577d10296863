/**
 What the parser reads from a place in the text: the grammar over the token stream. A token that is looked at and put
 back is read again from where putting back leads.
 */
module Reader {
  import opened Basics
  import opened DataTypes
  import opened Lexer

  datatype MemberDef = MemberDef(typeName: string, arrays: seq<nat>, name: string, desc: string, alignment: nat)
  datatype StructDef = StructDef(name: string, desc: string, alignment: nat, members: seq<MemberDef>)

  const MAX_INT: nat := 0x7fff_ffff

  const STRUCT: string := ['s', 't', 'r', 'u', 'c', 't']

  /** How far putting a token back goes: a string loses its quotes, but no escapes. */
  function Back(t: Token): nat { |t.text| + if t.kind == String then 2 else 0 }

  /** The place that putting back the token read from p leads to. */
  function Undo(code: string, p: nat): (q: nat)
    requires p <= |code| && Lex(code, p).Some?
    ensures p <= q <= |code|
  {
    TokenFacts(code, p);
    Lex(code, p).value.1 - Back(Lex(code, p).value.0)
  }

  /** A token that is no string is read again. */
  lemma UndoIsExact(code: string, p: nat)
    requires p <= |code| && Lex(code, p).Some? && Lex(code, p).value.0.kind != String
    ensures Undo(code, p) == SkipSpace(code, p) && Lex(code, Undo(code, p)) == Lex(code, p)
  {
    PutBackGet(code, p);
    TokenLength(code, SkipSpace(code, p));
  }

  function IntValue(code: string, p: nat): (n: nat)
    requires p <= |code| && Lex(code, p).Some? && Lex(code, p).value.0.kind == Int
  {
    TokenFacts(code, p);
    Number(Lex(code, p).value.0.text)
  }

  // ----- Parts of a definition -----

  function ReadName(code: string, p: nat): (r: Option<(string, nat)>)
    requires p <= |code|
    ensures r.Some? ==> p < r.value.1 <= |code| && r.value.0 != ""
  {
    match Lex(code, p)
    case None => None
    case Some((t, q)) =>
      TokenFacts(code, p);
      if t.kind == Identifier then Some((t.text, q)) else None
  }

  function ReadMark(code: string, p: nat, c: char): (r: Option<nat>)
    requires p <= |code|
    ensures r.Some? ==> p < r.value <= |code|
  {
    match Lex(code, p)
    case None => None
    case Some((t, q)) =>
      TokenFacts(code, p);
      if t.text == [c] then Some(q) else None
  }

  /** Dimensions up to the closing bracket; a comma may stand behind the last one. */
  function ReadDims(code: string, p: nat): (r: Option<(seq<nat>, nat)>)
    requires p <= |code|
    ensures r.Some? ==> p <= r.value.1 <= |code|
    decreases |code| - p
  {
    match Lex(code, p)
    case None => None
    case Some((t, q)) =>
      TokenFacts(code, p);
      if t.text == [']'] then Some(([], q))
      else if t.kind != Int || IntValue(code, p) > MAX_INT then None
      else
        match Lex(code, q)
        case None => None
        case Some((s, r)) =>
          if s.text == [','] then
            match ReadDims(code, r)
            case None => None
            case Some((dims, e)) => Some(([IntValue(code, p)] + dims, e))
          else if s.text == [']'] then Some(([IntValue(code, p)], r))
          else None
  }

  function ReadArray(code: string, p: nat): (r: Option<(seq<nat>, nat)>)
    requires p <= |code|
    ensures r.Some? ==> p <= r.value.1 <= |code|
  {
    match Lex(code, p)
    case None => None
    case Some((t, q)) => if t.text == ['['] then ReadDims(code, q) else Some(([], Undo(code, p)))
  }

  function ReadDesc(code: string, p: nat): (r: Option<(string, nat)>)
    requires p <= |code|
    ensures r.Some? ==> p <= r.value.1 <= |code|
  {
    match Lex(code, p)
    case None => None
    case Some((t, q)) => if t.kind == String then Some((t.text, q)) else Some(("", Undo(code, p)))
  }

  /** As 16 bits; 1 if none is given. */
  function ReadAlignment(code: string, p: nat): (r: Option<(nat, nat)>)
    requires p <= |code|
    ensures r.Some? ==> p <= r.value.1 <= |code|
  {
    match Lex(code, p)
    case None => None
    case Some((t, q)) =>
      if t.kind != Int then Some((1, Undo(code, p)))
      else if IntValue(code, p) > MAX_INT then None
      else Some((IntValue(code, p) % 65536, q))
  }

  /** A string without escapes is read again after being put back. */
  lemma {:induction false} StringAgain(code: string, p: nat)
    requires p <= |code| && Lex(code, p).Some? && Lex(code, p).value.0.kind == String
    requires forall i | p <= i < Lex(code, p).value.1 :: code[i] != '\\'
    ensures Undo(code, p) == SkipSpace(code, p) && Lex(code, Undo(code, p)) == Lex(code, p)
  {
    var start := SkipSpace(code, p);
    PlainLength(code, start + 1);
    SkipIs(code, start, start);
  }

  lemma {:induction false} PlainLength(code: string, p: nat)
    requires p <= |code| && QuotedText(code, p).Some?
    requires forall i | p <= i < QuotedText(code, p).value.1 :: code[i] != '\\'
    ensures p + |QuotedText(code, p).value.0| + 1 == QuotedText(code, p).value.1
    decreases |code| - p
  {
    if code[p] != '\'' {
      PlainLength(code, p + 1);
    }
  }

  // ----- Members -----

  /** Integers are read as 32-bit ones, and an alignment is kept as 16 bits. */
  lemma IntRange(code: string, p: nat)
    requires p <= |code| && Lex(code, p).Some? && Lex(code, p).value.0.kind == Int
    ensures var n := IntValue(code, p);
      if n < 0x8000_0000 then ReadAlignment(code, p) == Some((n % 0x1_0000, Lex(code, p).value.1))
      else ReadAlignment(code, p) == None && ReadDims(code, p) == None
  {
    hide Lex;
    TokenFacts(code, p);
    assert !IsDigits([']']) by {
      assert !IsNumber([']'][0]);
    }
  }

  /** The type is basic, or a struct defined before. */
  predicate TypeKnown(typeName: string, known: set<string>) {
    TypeNamed(typeName) != Structure && (TypeNamed(typeName) != Invalid || typeName in known)
  }

  /** Type name, dimensions and name of a member. */
  function ReadFront(code: string, p: nat): (r: Option<(string, seq<nat>, string, nat)>)
    requires p <= |code|
    ensures r.Some? ==> p < r.value.3 <= |code|
  {
    match ReadName(code, p)
    case None => None
    case Some((typeName, p1)) =>
      match ReadArray(code, p1)
      case None => None
      case Some((arrays, p2)) =>
        match ReadName(code, p2)
        case None => None
        case Some((name, p3)) => Some((typeName, arrays, name, p3))
  }

  /** Description and alignment, both optional, and the mark behind them. */
  function ReadTail(code: string, p: nat, mark: char): (r: Option<(string, nat, nat)>)
    requires p <= |code|
    ensures r.Some? ==> p < r.value.2 <= |code|
  {
    match ReadDesc(code, p)
    case None => None
    case Some((desc, p1)) =>
      match ReadAlignment(code, p1)
      case None => None
      case Some((alignment, p2)) =>
        match ReadMark(code, p2, mark)
        case None => None
        case Some(p3) => Some((desc, alignment, p3))
  }

  function ReadMember(code: string, p: nat, known: set<string>): (r: Option<(MemberDef, nat)>)
    ensures r.Some? ==> p < r.value.1 <= |code|
  {
    if p > |code| then None
    else
      match ReadFront(code, p)
      case None => None
      case Some((typeName, arrays, name, p1)) =>
        if !TypeKnown(typeName, known) then None
        else
          match ReadTail(code, p1, ';')
          case None => None
          case Some((desc, alignment, p2)) => Some((MemberDef(typeName, arrays, name, desc, alignment), p2))
  }

  /** The members from p on, up to the closing brace. */
  function ReadMembers(code: string, p: nat, known: set<string>): (r: Option<(seq<MemberDef>, nat)>)
    ensures r.Some? ==> p < r.value.1 <= |code|
    decreases |code| - p
  {
    match ReadMember(code, p, known)
    case None => None
    case Some((m, q)) =>
      match Lex(code, q)
      case None => None
      case Some((t, r)) =>
        if t.text == ['}'] then Some(([m], r))
        else if t.kind == EndOfCode then None
        else
          match ReadMembers(code, Undo(code, q), known)
          case None => None
          case Some((ms, e)) => Some(([m] + ms, e))
  }

  /** Where the first member is read: its first token is put back twice. Positions are 32-bit values. */
  function Hop(code: string, p: nat): nat
    requires p <= |code| && Lex(code, p).Some?
  {
    (Undo(code, p) - Back(Lex(code, p).value.0)) % TWO_32
  }

  /** What follows the opening brace. */
  function ReadBody(code: string, p: nat, known: set<string>): (r: Option<(seq<MemberDef>, nat)>)
    requires p <= |code|
    ensures r.Some? ==> r.value.1 <= |code|
  {
    match Lex(code, p)
    case None => None
    case Some((t, q)) => if t.text == ['}'] then None else ReadMembers(code, Hop(code, p), known)
  }

  // ----- Structs -----

  datatype Heading =
    | Head(name: string, desc: string, alignment: nat, next: nat)
    | NoMore
    | NoHead

  datatype Reading =
    | Found(def: StructDef, next: nat)
    | AtEnd
    | Malformed

  /** The name behind the keyword. */
  function ReadStructName(code: string, p: nat): (r: Option<(string, nat)>)
    requires p <= |code|
    ensures r.Some? ==> p <= r.value.1 <= |code| && r.value.0 != ""
  {
    match Lex(code, p)
    case None => None
    case Some((t, q)) => if t.text == STRUCT then ReadName(code, q) else None
  }

  function Substrings(code: string): set<string> {
    set i, j | 0 <= i <= j <= |code| :: code[i..j]
  }

  lemma NameIsSubstring(code: string, p: nat)
    requires p <= |code| && ReadStructName(code, p).Some?
    ensures ReadStructName(code, p).value.0 in Substrings(code)
  {
    var q := Lex(code, p).value.1;
    var s := SkipSpace(code, q);
    assert code[s..EndOfName(code, s)] in Substrings(code);
  }

  /** What stands before the members. A name can be defined only once. */
  function ReadHead(code: string, p: nat, known: set<string>): (r: Heading)
    requires p <= |code|
    ensures r.Head? ==> r.next <= |code| && r.name != "" && r.name !in known && r.name in Substrings(code)
  {
    if Lex(code, p).Some? && Lex(code, p).value.0.kind == EndOfCode then NoMore
    else
      match ReadStructName(code, p)
      case None => NoHead
      case Some((name, p1)) =>
        NameIsSubstring(code, p);
        if name in known then NoHead
        else
          match ReadTail(code, p1, '{')
          case None => NoHead
          case Some((desc, alignment, p2)) => Head(name, desc, alignment, p2)
  }

  function ReadStruct(code: string, p: nat, known: set<string>): (r: Reading)
    requires p <= |code|
    ensures r.Found? ==> r.next <= |code| && r.def.name != "" && r.def.name !in known && r.def.name in Substrings(code)
  {
    match ReadHead(code, p, known)
    case NoMore => AtEnd
    case NoHead => Malformed
    case Head(name, desc, alignment, p1) =>
      match ReadBody(code, p1, known)
      case None => Malformed
      case Some((members, p2)) => Found(StructDef(name, desc, alignment, members), p2)
  }

  /** All definitions from p on. Each brings a new name, and names are parts of the text, so that reading ends. */
  function ReadProgram(code: string, p: nat, known: set<string>): Option<seq<StructDef>>
    requires p <= |code|
    decreases Substrings(code) - known
  {
    match ReadStruct(code, p, known)
    case Malformed => None
    case AtEnd => Some([])
    case Found(d, q) =>
      FewerLeft(Substrings(code), known, d.name);
      match ReadProgram(code, q, known + {d.name})
      case None => None
      case Some(ds) => Some([d] + ds)
  }

  lemma FewerLeft(all: set<string>, known: set<string>, name: string)
    requires name in all && name !in known
    ensures all - (known + {name}) < all - known
  {
    assert name in all - known;
  }
}
