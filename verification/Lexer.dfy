/** Tokens of the struct description language. */
module Lexer {
  import opened Basics

  datatype TokenType = Identifier | String | Int | Other | EndOfCode
  datatype Token = Token(text: string, kind: TokenType)

  // ----- Characters -----

  predicate IsSpace(c: char): (r: bool)
    ensures r <==> 8 <= c as int <= 13 || c as int == 32
  {
    c as int == 11 || c as int == 12 || c == '\r' || c == '\n' || c == ' ' || c == '\t' || c as int == 8
  }

  predicate IsAlpha(c: char) { ('a' <= c <= 'z') || ('A' <= c <= 'Z') }

  predicate IsNumber(c: char): (r: bool)
    ensures r <==> 48 <= c as int <= 57
  {
    '0' <= c <= '9'
  }

  predicate IsIdentifierChar(c: char): (r: bool)
    ensures r <==> 48 <= c as int <= 57 || 65 <= c as int <= 90 || c as int == 95 || 97 <= c as int <= 122
  {
    IsAlpha(c) || IsNumber(c) || c == '_'
  }

  // ----- What the next token is -----

  function SkipSpace(code: string, p: nat): (q: nat)
    requires p <= |code|
    ensures p <= q <= |code| && (q < |code| ==> !IsSpace(code[q]))
    ensures forall i | p <= i < q :: IsSpace(code[i])
    decreases |code| - p
  {
    if p < |code| && IsSpace(code[p]) then SkipSpace(code, p + 1) else p
  }

  function EndOfNumber(code: string, p: nat): (q: nat)
    requires p <= |code|
    ensures p <= q <= |code| && (q < |code| ==> !IsNumber(code[q]))
    ensures forall i | p <= i < q :: IsNumber(code[i])
    decreases |code| - p
  {
    if p < |code| && IsNumber(code[p]) then EndOfNumber(code, p + 1) else p
  }

  function EndOfName(code: string, p: nat): (q: nat)
    requires p <= |code|
    ensures p <= q <= |code| && (q < |code| ==> !IsIdentifierChar(code[q]))
    ensures forall i | p <= i < q :: IsIdentifierChar(code[i])
    decreases |code| - p
  {
    if p < |code| && IsIdentifierChar(code[p]) then EndOfName(code, p + 1) else p
  }

  /** The character an escape stands for. */
  function Unescaped(c: char): Option<char> {
    if c == '\\' then Some('\\') else if c == '\'' then Some('\'') else if c == 'n' then Some('\n')
    else if c == 't' then Some('\t') else None
  }

  /** The text from p up to the closing quote, and the place behind it. */
  function QuotedText(code: string, p: nat): (r: Option<(string, nat)>)
    requires p <= |code|
    ensures r.Some? ==> p < r.value.1 <= |code|
    decreases |code| - p
  {
    if p == |code| then None
    else if code[p] == '\'' then Some(("", p + 1))
    else if code[p] == '\\' then
      if p + 1 == |code| || Unescaped(code[p + 1]).None? then None
      else
        match QuotedText(code, p + 2)
        case None => None
        case Some((text, q)) => Some(([Unescaped(code[p + 1]).value] + text, q))
    else
      match QuotedText(code, p + 1)
      case None => None
      case Some((text, q)) => Some(([code[p]] + text, q))
  }

  /** The token that begins at p, which is no blank. */
  function TokenAt(code: string, p: nat): (r: Option<(Token, nat)>)
    requires p <= |code| && (p < |code| ==> !IsSpace(code[p]))
    ensures r.Some? ==> p <= r.value.1 <= |code|
  {
    if p == |code| then Some((Token("", EndOfCode), p))
    else if IsNumber(code[p]) then Some((Token(code[p..EndOfNumber(code, p)], Int), EndOfNumber(code, p)))
    else if IsIdentifierChar(code[p]) then Some((Token(code[p..EndOfName(code, p)], Identifier), EndOfName(code, p)))
    else if code[p] == '\'' then
      match QuotedText(code, p + 1)
      case None => None
      case Some((text, q)) => Some((Token(text, String), q))
    else Some((Token([code[p]], Other), p + 1))
  }

  /** get_next_token: the token behind any blanks and the place behind it; nothing for a malformed string. */
  function Lex(code: string, p: nat): (r: Option<(Token, nat)>)
    requires p <= |code|
    ensures r.Some? ==> p <= r.value.1 <= |code|
  {
    TokenAt(code, SkipSpace(code, p))
  }

  /** Between tokens just the characters 8 to 13 and 32 are skipped. */
  lemma SkipsBlanks(code: string, p: nat, q: nat)
    requires p <= q <= |code|
    ensures SkipSpace(code, p) == q <==>
              && (forall i | p <= i < q :: 8 <= code[i] as int <= 13 || code[i] as int == 32)
              && (q < |code| ==> !(8 <= code[q] as int <= 13 || code[q] as int == 32))
  {
    if forall i | p <= i < q :: IsSpace(code[i]) {
      if q == |code| || !IsSpace(code[q]) {
        SkipIs(code, p, q);
      }
    } else {
      var i :| p <= i < q && !IsSpace(code[i]);
    }
  }

  /** A name is made of letters, digits and underscores, begins with no digit, and goes on as far as it can. */
  lemma NameToken(code: string, p: nat, q: nat)
    requires p < q <= |code| && !IsSpace(code[p])
    ensures TokenAt(code, p) == Some((Token(code[p..q], Identifier), q)) <==>
              && !(48 <= code[p] as int <= 57)
              && (forall i | p <= i < q ::
                    65 <= code[i] as int <= 90 || 97 <= code[i] as int <= 122 || code[i] as int == 95 || 48 <= code[i] as int <= 57)
              && (q < |code| ==>
                    !(65 <= code[q] as int <= 90 || 97 <= code[q] as int <= 122 || code[q] as int == 95 || 48 <= code[q] as int <= 57))
  {
    assert IsIdentifierChar(code[p]) || !IsIdentifierChar(code[p]);
    if IsIdentifierChar(code[p]) && !IsNumber(code[p]) {
      var e := EndOfName(code, p);
      assert forall i | p <= i < e :: IsIdentifierChar(code[i]);
      if e < q { assert !IsIdentifierChar(code[e]); }
      if q < e { assert IsIdentifierChar(code[q]); }
    }
  }

  // ----- Putting a token back -----

  /** Just backslash, quote, n and t may follow a backslash, and stand for the characters that are written so. */
  lemma UnescapedIff(c: char, d: char)
    ensures Unescaped(c) == Some(d) <==> EscapeChar(d) == ['\\', c]
    ensures Unescaped(c).Some? <==> c as int == 92 || c as int == 39 || c as int == 110 || c as int == 116
  {
  }

  lemma {:induction false} SkipIs(code: string, p: nat, q: nat)
    requires p <= q <= |code| && (forall i | p <= i < q :: IsSpace(code[i])) && (q < |code| ==> !IsSpace(code[q]))
    ensures SkipSpace(code, p) == q
    decreases q - p
  {
    if p < q {
      SkipIs(code, p + 1, q);
    }
  }

  lemma DigitsAreNoBlanks(c: char)
    ensures IsNumber(c) ==> IsIdentifierChar(c)
    ensures IsIdentifierChar(c) ==> !IsSpace(c)
  {
  }

  /** The length of a token other than a string is the distance from its start to its end. */
  lemma TokenLength(code: string, p: nat)
    requires p <= |code| && (p < |code| ==> !IsSpace(code[p]))
    requires TokenAt(code, p).Some? && TokenAt(code, p).value.0.kind != String
    ensures |TokenAt(code, p).value.0.text| == TokenAt(code, p).value.1 - p
  {
  }

  /** Getting a token, putting it back and getting again yields the same token at the same place, if it is no string. */
  lemma PutBackGet(code: string, p: nat)
    requires p <= |code| && Lex(code, p).Some? && Lex(code, p).value.0.kind != String
    ensures var (t, q) := Lex(code, p).value; |t.text| <= q && q - |t.text| <= |code| && Lex(code, q - |t.text|) == Lex(code, p)
  {
    var start := SkipSpace(code, p);
    TokenLength(code, start);
    SkipIs(code, start, start);
  }

  /**
   Putting an identifier back twice leaves the reader as many places before its start as it is long. The next token is
   that identifier again exactly when all those places are blank. If there are not so many places, the position wraps, in
   a text of at most 2^31 characters to behind its end.
   */
  lemma PutBackTwice(code: string, start: nat)
    requires start < |code| && IsIdentifierChar(code[start]) && !IsNumber(code[start])
    ensures TokenAt(code, start).Some?
    ensures var (t, q) := TokenAt(code, start).value;
      |t.text| <= start ==>
        (Lex(code, start - |t.text|) == TokenAt(code, start) <==> forall i | start - |t.text| <= i < start :: IsSpace(code[i]))
    ensures var (t, q) := TokenAt(code, start).value;
      |t.text| > start && |code| <= TWO_32 / 2 ==> start == 0 || (start - |t.text|) % TWO_32 > |code|
  {
    var (t, q) := TokenAt(code, start).value;
    TokenLength(code, start);
    if |t.text| <= start {
      var p := start - |t.text|;
      var s := SkipSpace(code, p);
      if forall i | p <= i < start :: IsSpace(code[i]) {
        DigitsAreNoBlanks(code[start]);
        SkipIs(code, p, start);
      } else if Lex(code, p) == TokenAt(code, start) {
        TokenLength(code, s);
      }
    }
  }

  /** Every token but the end takes up some of the code; an integer consists of digits. */
  lemma TokenFacts(code: string, p: nat)
    requires p <= |code| && Lex(code, p).Some?
    ensures var (t, q) := Lex(code, p).value;
      && (t.kind != EndOfCode ==> p < q) && (t.kind == EndOfCode ==> t.text == "")
      && (t.kind == Identifier ==> t.text != "")
      && (t.kind == Int ==> IsDigits(t.text))
      && p + |t.text| + (if t.kind == String then 2 else 0) <= q
  {
    var s := SkipSpace(code, p);
    if TokenAt(code, s).value.0.kind == String {
      QuotedLength(code, s + 1);
    } else {
      TokenLength(code, s);
    }
  }

  /** A quoted text takes up at least as many places as it is long, and the closing quote. */
  lemma {:induction false} QuotedLength(code: string, p: nat)
    requires p <= |code| && QuotedText(code, p).Some?
    ensures p + |QuotedText(code, p).value.0| + 1 <= QuotedText(code, p).value.1
    decreases |code| - p
  {
    if code[p] == '\'' {
    } else if code[p] == '\\' {
      QuotedLength(code, p + 2);
    } else {
      QuotedLength(code, p + 1);
    }
  }

  // ----- Canonical tokens -----

  /** The blanks are the characters 8 to 13 and 32: backspace, tab, line feed, vertical tab, form feed, return and space. */
  predicate AllSpace(blanks: string) {
    forall i | 0 <= i < |blanks| :: 8 <= blanks[i] as int <= 13 || blanks[i] as int == 32
  }

  /** Letters, digits and underscores, not beginning with a digit. */
  predicate IsName(name: string) {
    name != "" && !IsNumber(name[0]) && forall i | 0 <= i < |name| :: IsIdentifierChar(name[i])
  }

  function DigitChar(d: nat): (c: char)
    requires d < 10
    ensures IsNumber(c)
  {
    '0' + d as char
  }

  function Digits(n: nat): (text: string)
    ensures text != "" && forall i | 0 <= i < |text| :: IsNumber(text[i])
  {
    if n < 10 then [DigitChar(n)] else Digits(n / 10) + [DigitChar(n % 10)]
  }

  function DigitValue(c: char): (d: nat)
    requires IsNumber(c)
  {
    c as int - '0' as int
  }

  predicate IsDigits(text: string) { forall i | 0 <= i < |text| :: IsNumber(text[i]) }

  /** The number that a string of digits means. */
  function Number(text: string): nat
    requires IsDigits(text)
  {
    if text == "" then 0 else 10 * Number(text[..|text| - 1]) + DigitValue(text[|text| - 1])
  }

  lemma {:induction false} NumberOfDigits(n: nat)
    ensures Number(Digits(n)) == n
  {
    if n < 10 {
      assert Digits(n)[..0] == "";
    } else {
      NumberOfDigits(n / 10);
      assert Digits(n)[..|Digits(n)| - 1] == Digits(n / 10);
    }
  }

  function EscapeChar(c: char): (e: string)
    ensures 1 <= |e| <= 2
  {
    if c == '\\' then ['\\', '\\'] else if c == '\'' then ['\\', '\''] else if c == '\n' then ['\\', 'n']
    else if c == '\t' then ['\\', 't'] else [c]
  }

  function Escape(text: string): string {
    if text == "" then "" else EscapeChar(text[0]) + Escape(text[1..])
  }

  /** What follows a piece of the code. */
  lemma Advance(code: string, p: nat, piece: string, rest: string)
    requires p <= |code| && code[p..] == piece + rest
    ensures p + |piece| <= |code| && code[p + |piece|..] == rest
    ensures forall i | 0 <= i < |piece| :: code[p + i] == piece[i]
    ensures code[p..p + |piece|] == piece
  {
    TakeDrop(piece, rest);
    assert code[p + |piece|..] == code[p..][|piece|..];
    assert code[p..p + |piece|] == code[p..][..|piece|];
    forall i | 0 <= i < |piece|
      ensures code[p + i] == piece[i]
    {
      assert code[p + i] == code[p..][i];
    }
  }

  lemma Blanks(code: string, p: nat, blanks: string, rest: string)
    requires p <= |code| && code[p..] == blanks + rest && AllSpace(blanks) && (rest != "" ==> !IsSpace(rest[0]))
    ensures p + |blanks| <= |code| && SkipSpace(code, p) == p + |blanks| && code[p + |blanks|..] == rest
  {
    Advance(code, p, blanks, rest);
    var q := p + |blanks|;
    if q < |code| {
      assert code[q] == code[q..][0];
    }
    forall i | p <= i < q
      ensures IsSpace(code[i])
    {
      assert code[p + (i - p)] == blanks[i - p];
    }
    SkipIs(code, p, q);
  }

  lemma {:induction false} NameEnds(code: string, p: nat, q: nat)
    requires p <= q <= |code| && (forall i | p <= i < q :: IsIdentifierChar(code[i])) && (q < |code| ==> !IsIdentifierChar(code[q]))
    ensures EndOfName(code, p) == q
    decreases q - p
  {
    if p < q {
      NameEnds(code, p + 1, q);
    }
  }

  lemma {:induction false} NumberEnds(code: string, p: nat, q: nat)
    requires p <= q <= |code| && (forall i | p <= i < q :: IsNumber(code[i])) && (q < |code| ==> !IsNumber(code[q]))
    ensures EndOfNumber(code, p) == q
    decreases q - p
  {
    if p < q {
      NumberEnds(code, p + 1, q);
    }
  }

  lemma LexName(code: string, p: nat, blanks: string, name: string, rest: string)
    requires p <= |code| && code[p..] == blanks + (name + rest) && AllSpace(blanks) && IsName(name)
    requires rest != "" ==> !IsIdentifierChar(rest[0])
    ensures p + |blanks| + |name| <= |code|
    ensures Lex(code, p) == Some((Token(name, Identifier), p + |blanks| + |name|)) && code[p + |blanks| + |name|..] == rest
  {
    DigitsAreNoBlanks(name[0]);
    Blanks(code, p, blanks, name + rest);
    var s, q := p + |blanks|, p + |blanks| + |name|;
    Advance(code, s, name, rest);
    assert code[s + 0] == name[0];
    if q < |code| {
      assert code[q] == code[q..][0];
    }
    forall i | s <= i < q
      ensures IsIdentifierChar(code[i])
    {
      assert code[s + (i - s)] == name[i - s];
    }
    NameEnds(code, s, q);
  }

  lemma LexInt(code: string, p: nat, blanks: string, text: string, rest: string)
    requires p <= |code| && code[p..] == blanks + (text + rest) && AllSpace(blanks) && text != "" && IsDigits(text)
    requires rest != "" ==> !IsNumber(rest[0])
    ensures p + |blanks| + |text| <= |code|
    ensures Lex(code, p) == Some((Token(text, Int), p + |blanks| + |text|)) && code[p + |blanks| + |text|..] == rest
  {
    DigitsAreNoBlanks(text[0]);
    Blanks(code, p, blanks, text + rest);
    var s, q := p + |blanks|, p + |blanks| + |text|;
    Advance(code, s, text, rest);
    assert code[s + 0] == text[0];
    if q < |code| {
      assert code[q] == code[q..][0];
    }
    forall i | s <= i < q
      ensures IsNumber(code[i])
    {
      assert code[s + (i - s)] == text[i - s];
    }
    NumberEnds(code, s, q);
  }

  lemma LexOther(code: string, p: nat, blanks: string, c: char, rest: string)
    requires p <= |code| && code[p..] == blanks + ([c] + rest) && AllSpace(blanks)
    requires !IsSpace(c) && !IsIdentifierChar(c) && c != '\''
    ensures p + |blanks| + 1 <= |code|
    ensures Lex(code, p) == Some((Token([c], Other), p + |blanks| + 1)) && code[p + |blanks| + 1..] == rest
  {
    DigitsAreNoBlanks(c);
    Blanks(code, p, blanks, [c] + rest);
    Advance(code, p + |blanks|, [c], rest);
    assert code[p + |blanks| + 0] == c;
  }

  lemma QuotedChar(code: string, p: nat, c: char, tail: string)
    requires p <= |code| && code[p..] == EscapeChar(c) + tail
    ensures p + |EscapeChar(c)| <= |code| && code[p + |EscapeChar(c)|..] == tail
    ensures QuotedText(code, p)
         == match QuotedText(code, p + |EscapeChar(c)|) { case None => None case Some((text, q)) => Some(([c] + text, q)) }
  {
    var e := EscapeChar(c);
    Advance(code, p, e, tail);
    assert code[p + 0] == e[0];
    if |e| == 2 {
      assert code[p + 1] == e[1];
    }
  }

  /** A quoted text is read back from its escaped form. */
  lemma {:induction false} QuotedEscape(code: string, p: nat, text: string, rest: string)
    requires p <= |code| && code[p..] == Escape(text) + (['\''] + rest)
    ensures p + |Escape(text)| + 1 <= |code|
    ensures QuotedText(code, p) == Some((text, p + |Escape(text)| + 1)) && code[p + |Escape(text)| + 1..] == rest
    decreases |text|
  {
    hide EscapeChar;
    if text == "" {
      assert Escape(text) + (['\''] + rest) == ['\''] + rest;
      Advance(code, p, ['\''], rest);
      assert code[p + 0] == '\'';
    } else {
      hide QuotedText;
      Assoc(EscapeChar(text[0]), Escape(text[1..]), ['\''] + rest);
      QuotedChar(code, p, text[0], Escape(text[1..]) + (['\''] + rest));
      QuotedEscape(code, p + |EscapeChar(text[0])|, text[1..], rest);
      assert [text[0]] + text[1..] == text;
    }
  }

  lemma LexString(code: string, p: nat, blanks: string, text: string, rest: string)
    requires p <= |code| && code[p..] == blanks + (['\''] + (Escape(text) + (['\''] + rest))) && AllSpace(blanks)
    ensures p + |blanks| + |Escape(text)| + 2 <= |code|
    ensures Lex(code, p) == Some((Token(text, String), p + |blanks| + |Escape(text)| + 2))
    ensures code[p + |blanks| + |Escape(text)| + 2..] == rest
  {
    hide Escape, QuotedText;
    var inner := Escape(text) + (['\''] + rest);
    Blanks(code, p, blanks, ['\''] + inner);
    Advance(code, p + |blanks|, ['\''], inner);
    assert code[p + |blanks| + 0] == '\'';
    QuotedEscape(code, p + |blanks| + 1, text, rest);
  }
}
