/**
  The lexer of src/sql/lexer.c: the token list of an SQL text, the object that
  builds it by advancing an index, and which texts it accepts.
*/
module SqlLexer {
  import opened Wrappers
  import opened Text

  datatype TokenType =
    Identifier | StringLiteral | Number | Star | EqualSign | Comma | LeftParen | RightParen | Semicolon | End

  datatype Token = Token(kind: TokenType, text: string, position: nat)

  datatype LexResult =
    | Tokens(tokens: seq<Token>)
    | Unterminated(position: nat)
    | UnexpectedCharacter(c: char, position: nat)

  const QUOTE: char := '\''

  predicate IsLetter(c: char) {
    'a' <= c <= 'z' || 'A' <= c <= 'Z'
  }

  /** The first byte of a word; bytes from 0x80 on belong to UTF-8 sequences. */
  predicate StartsWord(c: char) {
    IsLetter(c) || c == '_' || IsDigit(c) || c >= 0x80 as char
  }

  predicate ContinuesWord(c: char) {
    IsLetter(c) || IsDigit(c) || c == '_' || c >= 0x80 as char
  }

  /** The alphabet of words: a word begins and goes on with the same characters. */
  lemma WordAlphabet(c: char)
    ensures StartsWord(c) <==> c in LARGE || c in SMALL || c in DIGITS || c == '_' || c >= 0x80 as char
    ensures ContinuesWord(c) <==> c in LARGE || c in SMALL || c in DIGITS || c == '_' || c >= 0x80 as char
  {
    CharacterClasses(c);
    LetterClasses(c);
  }

  lemma LetterClasses(c: char)
    ensures IsLetter(c) <==> c in LARGE || c in SMALL
  {
  }

  /** The token of a one-character symbol; `End` for any other character. */
  function SymbolKind(c: char): TokenType {
    match c
    case '*' => Star
    case '=' => EqualSign
    case ',' => Comma
    case '(' => LeftParen
    case ')' => RightParen
    case ';' => Semicolon
    case _ => End
  }

  function WordKind(word: string): TokenType {
    if word != "" && IsDigit(word[0]) then Number else Identifier
  }

  // ----- What the lexer computes ---------------------------------------------

  function WordLength(s: string): (n: nat)
    ensures n <= |s| && (forall i :: 0 <= i < n ==> ContinuesWord(s[i]))
    ensures n < |s| ==> !ContinuesWord(s[n])
  {
    if s != "" && ContinuesWord(s[0]) then 1 + WordLength(s[1..]) else 0
  }

  /** What is read behind an opening quote: the text, how many characters, and whether a closing quote was met. */
  datatype Literal = Literal(text: string, length: nat, closed: bool)

  function LiteralIn(s: string): (r: Literal)
    ensures r.length <= |s| && (!r.closed ==> r.length == |s|)
    ensures r.closed ==> r.length > 0 && s[r.length - 1] == QUOTE
  {
    if s == "" then Literal("", 0, false)
    else if s[0] != QUOTE then
      var r := LiteralIn(s[1..]);
      Literal([s[0]] + r.text, r.length + 1, r.closed)
    else if |s| > 1 && s[1] == QUOTE then
      var r := LiteralIn(s[2..]);
      Literal([QUOTE] + r.text, r.length + 2, r.closed)
    else Literal("", 1, true)
  }

  /** The test for a terminated literal: the last character read, or else the opening quote, is a quote. */
  predicate AcceptsLiteral(s: string) {
    ([QUOTE] + s)[LiteralIn(s).length] == QUOTE
  }

  function Prepend(token: Token, rest: LexResult): LexResult {
    if rest.Tokens? then Tokens([token] + rest.tokens) else rest
  }

  /** The tokens of the text `s` that starts at `position`. */
  function Lex(s: string, position: nat): (r: LexResult)
    decreases |s|
  {
    if s == "" then Tokens([Token(End, "", position)])
    else if IsSpace(s[0]) then Lex(s[1..], position + 1)
    else if StartsWord(s[0]) then
      var n := WordLength(s);
      Prepend(Token(WordKind(s[..n]), s[..n], position), Lex(s[n..], position + n))
    else if s[0] == QUOTE then
      if !AcceptsLiteral(s[1..]) then Unterminated(position)
      else
        var literal := LiteralIn(s[1..]);
        Prepend(Token(StringLiteral, literal.text, position),
                Lex(s[literal.length + 1..], position + literal.length + 1))
    else if SymbolKind(s[0]) == End then UnexpectedCharacter(s[0], position)
    else Prepend(Token(SymbolKind(s[0]), [s[0]], position), Lex(s[1..], position + 1))
  }

  /** One character of a literal, or two quotes that stand for one, joins what was read before. */
  lemma LiteralStep(input: string, index: nat, before: string)
    requires index < |input|
    ensures var here := LiteralIn(input[index..]);
      if input[index] == QUOTE && !(index + 1 < |input| && input[index + 1] == QUOTE) then
        here == Literal("", 1, true) && before + here.text == before
      else
        var next := if input[index] == QUOTE then index + 2 else index + 1;
        var rest := LiteralIn(input[next..]);
        && here.length == next - index + rest.length && here.closed == rest.closed
        && before + here.text == before + [input[index]] + rest.text
  {
  }

  lemma LiteralEnds(before: string)
    ensures LiteralIn("") == Literal("", 0, false) && before + "" == before
  {
  }

  /** The whole result, when these tokens come before the rest. */
  function After(tokens: seq<Token>, rest: LexResult): LexResult {
    if rest.Tokens? then Tokens(tokens + rest.tokens) else rest
  }

  /** One step of the lexer, for the text from `index` on, behind the tokens already found. */
  lemma LexStep(input: string, index: nat, before: seq<Token>)
    requires index < |input|
    ensures var c, s := input[index], input[index..];
      After(before, Lex(s, index)) ==
        if IsSpace(c) then After(before, Lex(input[index + 1..], index + 1))
        else if StartsWord(c) then
          var next := index + WordLength(s);
          After(before + [Token(WordKind(s[..next - index]), s[..next - index], index)], Lex(input[next..], next))
        else if c == QUOTE then
          var rest := input[index + 1..];
          var next := index + 1 + LiteralIn(rest).length;
          if !AcceptsLiteral(rest) then Unterminated(index)
          else After(before + [Token(StringLiteral, LiteralIn(rest).text, index)], Lex(input[next..], next))
        else if SymbolKind(c) == End then UnexpectedCharacter(c, index)
        else After(before + [Token(SymbolKind(c), [c], index)], Lex(input[index + 1..], index + 1))
  {
    hide LiteralIn, AcceptsLiteral, WordLength, WordKind;
    var c, s := input[index], input[index..];
    assert s[1..] == input[index + 1..];
    if IsSpace(c) {
    } else if StartsWord(c) {
      var n := WordLength(s);
      assert s[n..] == input[index + n..];
      AfterPrepend(before, Token(WordKind(s[..n]), s[..n], index), Lex(s[n..], index + n));
    } else if c == QUOTE {
      var literal := LiteralIn(s[1..]);
      assert s[literal.length + 1..] == input[index + 1 + literal.length..];
      var next := index + 1 + literal.length;
      AfterPrepend(before, Token(StringLiteral, literal.text, index), Lex(s[literal.length + 1..], next));
    } else {
      AfterPrepend(before, Token(SymbolKind(c), [c], index), Lex(s[1..], index + 1));
    }
  }

  lemma AfterPrepend(before: seq<Token>, token: Token, rest: LexResult)
    ensures After(before, Prepend(token, rest)) == After(before + [token], rest)
  {
  }

  lemma LexEnds(position: nat)
    ensures Lex("", position) == Tokens([Token(End, "", position)])
  {
  }

  // ----- The lexer itself ----------------------------------------------------

  class Lexer {
    const input: string
    var index: nat
    var tokens: seq<Token>

    constructor (input: string)
      ensures this.input == input && index == 0 && tokens == []
    {
      this.input, index, tokens := input, 0, [];
    }

    /** `push_token`. */
    method PushToken(kind: TokenType, text: string, position: nat)
      modifies `tokens
      ensures tokens == old(tokens) + [Token(kind, text, position)]
    {
      tokens := tokens + [Token(kind, text, position)];
    }

    /** `lex_word`. */
    method LexWord()
      requires index < |input|
      modifies `index, `tokens
      ensures var start, n := old(index), WordLength(input[old(index)..]);
        && index == start + n
        && tokens == old(tokens) + [Token(WordKind(input[start..][..n]), input[start..][..n], start)]
    {
      var start, length := index, 0;
      while index < |input| && ContinuesWord(input[index])
        invariant index == start + length <= |input| && tokens == old(tokens)
        invariant WordLength(input[start..]) == length + WordLength(input[index..])
      {
        assert input[index..][1..] == input[index + 1..];
        index := index + 1;
        length := length + 1;
      }
      var word := input[start..][..length];
      PushToken(WordKind(word), word, start);
    }

    /** `lex_string`. */
    method LexString() returns (ok: bool)
      requires index < |input| && input[index] == QUOTE
      modifies `index, `tokens
      ensures var start, rest := old(index), input[old(index) + 1..];
        && index == start + 1 + LiteralIn(rest).length
        && ok == AcceptsLiteral(rest)
        && tokens == old(tokens) + (if ok then [Token(StringLiteral, LiteralIn(rest).text, start)] else [])
    {
      hide LiteralIn;
      var start := index;
      var buffer := "";
      ghost var rest := input[index + 1..];
      index := index + 1;
      var closed := false;
      while index < |input| && !closed
        invariant start < index <= |input| && tokens == old(tokens)
        invariant !closed ==>
          var here := LiteralIn(input[index..]);
          LiteralIn(rest) == Literal(buffer + here.text, index - start - 1 + here.length, here.closed)
        invariant closed ==> LiteralIn(rest) == Literal(buffer, index - start - 1, true)
        decreases |input| - index, !closed
      {
        LiteralStep(input, index, buffer);
        if input[index] == QUOTE && !(index + 1 < |input| && input[index + 1] == QUOTE) {
          index := index + 1;
          closed := true;
        } else {
          if input[index] == QUOTE {
            index := index + 1;
          }
          buffer := buffer + [input[index]];
          index := index + 1;
        }
      }
      LiteralEnds(buffer);
      assert ([QUOTE] + rest)[index - 1 - start] == input[index - 1];
      if input[index - 1] != QUOTE {
        return false;
      }
      PushToken(StringLiteral, buffer, start);
      ok := true;
    }

    /** `push_simple_token`. */
    method PushSimpleToken(kind: TokenType)
      requires index < |input|
      modifies `index, `tokens
      ensures tokens == old(tokens) + [Token(kind, [input[old(index)]], old(index))] && index == old(index) + 1
    {
      PushToken(kind, [input[index]], index);
      index := index + 1;
    }

    /** What is left of the whole result at the current index. */
    ghost predicate OnTrack()
      reads this
    {
      index <= |input| && Lex(input, 0) == After(tokens, Lex(input[index..], index))
    }

    /** One round of the loop of `lex_sql`. */
    method LexNext() returns (error: Option<LexResult>)
      requires OnTrack() && index < |input|
      modifies `index, `tokens
      ensures error.None? ==> OnTrack() && index > old(index)
      ensures error.Some? ==> Lex(input, 0) == error.value && !error.value.Tokens?
    {
      hide Lex, LiteralIn, AcceptsLiteral, WordLength, WordKind, After;
      error := None;
      var current, start := input[index], index;
      ghost var before := tokens;
      LexStep(input, index, tokens);
      if IsSpace(current) {
        index := index + 1;
      } else if StartsWord(current) {
        LexWord();
      } else if current == QUOTE {
        var ok := LexString();
        if !ok {
          error := Some(Unterminated(start));
        }
      } else if current == '*' {
        PushSimpleToken(Star);
      } else if current == '=' {
        PushSimpleToken(EqualSign);
      } else if current == ',' {
        PushSimpleToken(Comma);
      } else if current == '(' {
        PushSimpleToken(LeftParen);
      } else if current == ')' {
        PushSimpleToken(RightParen);
      } else if current == ';' {
        PushSimpleToken(Semicolon);
      } else {
        error := Some(UnexpectedCharacter(current, index));
      }
    }

    /** `lex_sql`. */
    method LexSql() returns (r: LexResult)
      requires index == 0 && tokens == []
      modifies `index, `tokens
      ensures r == Lex(input, 0) && (r.Tokens? ==> r.tokens == tokens)
    {
      hide Lex;
      assert input[0..] == input;
      while index < |input|
        invariant OnTrack()
      {
        var error := LexNext();
        if error.Some? {
          return error.value;
        }
      }
      LexEnds(index);
      assert input[index..] == "";
      PushToken(End, "", index);
      r := Tokens(tokens);
    }
  }
}
