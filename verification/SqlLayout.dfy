/**
  Which texts the lexer of src/sql/lexer.c accepts, and with which tokens: the
  layouts of token lists, with any blanks between tokens, and besides them only
  layouts that lack the closing quote of a literal at their very end.
*/
module SqlLayout {
  import opened Text
  import opened SqlLexer

  /** A token as it stands in a text, with the blanks behind it. */
  datatype Piece = Piece(kind: TokenType, text: string, blank: string)

  predicate IsBlank(s: string) {
    forall i :: 0 <= i < |s| ==> IsSpace(s[i])
  }

  predicate IsWord(s: string) {
    s != "" && forall i :: 0 <= i < |s| ==> ContinuesWord(s[i])
  }

  /** Quotes are doubled inside a literal (section 5.3 of ISO/IEC 9075-2). */
  function Doubled(value: string): string {
    if value == "" then ""
    else (if value[0] == QUOTE then [QUOTE, QUOTE] else [value[0]]) + Doubled(value[1..])
  }

  predicate ValidPiece(p: Piece) {
    && IsBlank(p.blank)
    && match p.kind
       case Identifier => IsWord(p.text) && !IsDigit(p.text[0])
       case Number => IsWord(p.text) && IsDigit(p.text[0])
       case StringLiteral => true
       case End => false
       case _ => |p.text| == 1 && SymbolKind(p.text[0]) == p.kind
  }

  /** Two words, or two literals, would run into one another without a blank. */
  predicate NeedsBlank(left: TokenType, right: TokenType) {
    || (left in {Identifier, Number} && right in {Identifier, Number})
    || (left == StringLiteral && right == StringLiteral)
  }

  predicate Layout(pieces: seq<Piece>) {
    && (forall i :: 0 <= i < |pieces| ==> ValidPiece(pieces[i]))
    && forall i :: 0 <= i < |pieces| - 1 ==>
         NeedsBlank(pieces[i].kind, pieces[i + 1].kind) ==> pieces[i].blank != ""
  }

  function Spelling(p: Piece): string {
    if p.kind == StringLiteral then [QUOTE] + Doubled(p.text) + [QUOTE] else p.text
  }

  function TextOf(pieces: seq<Piece>): string {
    if pieces == [] then "" else Spelling(pieces[0]) + pieces[0].blank + TextOf(pieces[1..])
  }

  function TokensOf(pieces: seq<Piece>, position: nat): seq<Token> {
    if pieces == [] then [Token(End, "", position)]
    else
      [Token(pieces[0].kind, pieces[0].text, position)] +
      TokensOf(pieces[1..], position + |Spelling(pieces[0]) + pieces[0].blank|)
  }

  // ----- Every layout is read back -------------------------------------------

  lemma {:induction false} SkipBlanks(blank: string, rest: string, position: nat)
    requires IsBlank(blank)
    ensures Lex(blank + rest, position) == Lex(rest, position + |blank|)
    decreases |blank|
  {
    if blank == "" {
      assert blank + rest == rest;
    } else {
      assert (blank + rest)[1..] == blank[1..] + rest;
      SkipBlanks(blank[1..], rest, position + 1);
    }
  }

  lemma {:induction false} WordLengthOf(word: string, rest: string)
    requires forall i :: 0 <= i < |word| ==> ContinuesWord(word[i])
    requires rest != "" ==> !ContinuesWord(rest[0])
    ensures WordLength(word + rest) == |word|
  {
    if word != "" {
      assert (word + rest)[1..] == word[1..] + rest;
      WordLengthOf(word[1..], rest);
    } else {
      assert word + rest == rest;
    }
  }

  lemma DoubledStep(value: string, tail: string)
    requires value != ""
    ensures Doubled(value) + tail ==
      (if value[0] == QUOTE then [QUOTE, QUOTE] else [value[0]]) + (Doubled(value[1..]) + tail)
  {
  }

  lemma {:induction false} LiteralOf(value: string, tail: string)
    requires tail != "" && tail[0] == QUOTE && (|tail| > 1 ==> tail[1] != QUOTE)
    ensures LiteralIn(Doubled(value) + tail) == Literal(value, |Doubled(value)| + 1, true)
    decreases |value|
  {
    if value == "" {
      assert Doubled(value) + tail == tail;
    } else {
      DoubledStep(value, tail);
      DoubledStep(value, "");
      LiteralOf(value[1..], tail);
      hide Doubled;
      var s, more := Doubled(value) + tail, Doubled(value[1..]) + tail;
      assert value == [value[0]] + value[1..];
      assert if value[0] == QUOTE then s[2..] == more else s[1..] == more;
    }
  }

  /** What may stand behind the spelling of a piece. */
  predicate Stops(kind: TokenType, rest: string) {
    rest != "" ==>
      && (kind in {Identifier, Number} ==> !ContinuesWord(rest[0]))
      && (kind == StringLiteral ==> rest[0] != QUOTE)
  }

  lemma LexWord(word: string, rest: string, position: nat)
    requires IsWord(word) && Stops(Identifier, rest)
    ensures Lex(word + rest, position) == Prepend(Token(WordKind(word), word, position), Lex(rest, position + |word|))
  {
    WordLengthOf(word, rest);
    hide WordLength, WordKind;
    var s := word + rest;
    assert s[..|word|] == word && s[|word|..] == rest && s[0] == word[0];
  }

  lemma LexLiteral(value: string, rest: string, position: nat)
    requires Stops(StringLiteral, rest)
    ensures var literal := [QUOTE] + Doubled(value) + [QUOTE];
      Lex(literal + rest, position) ==
        Prepend(Token(StringLiteral, value, position), Lex(rest, position + |literal|))
  {
    hide LiteralIn, Doubled, WordLength;
    var literal := [QUOTE] + Doubled(value) + [QUOTE];
    var s := literal + rest;
    LiteralOf(value, [QUOTE] + rest);
    assert s[0] == QUOTE && s[1..] == Doubled(value) + ([QUOTE] + rest) && s[|literal|..] == rest;
    assert ([QUOTE] + s[1..])[|Doubled(value)| + 1] == QUOTE;
  }

  lemma LexSymbol(c: char, rest: string, position: nat)
    requires SymbolKind(c) != End
    ensures Lex([c] + rest, position) == Prepend(Token(SymbolKind(c), [c], position), Lex(rest, position + 1))
  {
    hide LiteralIn, AcceptsLiteral, WordLength;
    assert ([c] + rest)[1..] == rest;
  }

  lemma LexPiece(p: Piece, rest: string, position: nat)
    requires ValidPiece(p) && Stops(p.kind, rest)
    ensures Lex(Spelling(p) + rest, position) ==
      Prepend(Token(p.kind, p.text, position), Lex(rest, position + |Spelling(p)|))
  {
    hide Lex, Doubled;
    if p.kind in {Identifier, Number} {
      LexWord(p.text, rest, position);
    } else if p.kind == StringLiteral {
      LexLiteral(p.text, rest, position);
    } else {
      assert p.text == [p.text[0]];
      LexSymbol(p.text[0], rest, position);
    }
  }

  lemma FirstPiece(pieces: seq<Piece>)
    requires Layout(pieces) && pieces != []
    ensures ValidPiece(pieces[0]) && IsBlank(pieces[0].blank) && Layout(pieces[1..])
    ensures Stops(pieces[0].kind, pieces[0].blank + TextOf(pieces[1..]))
  {
  }

  /** Lexing undoes every layout: each piece comes back as its token, at its own position. */
  lemma {:induction false} LexUndoesLayout(pieces: seq<Piece>, position: nat)
    requires Layout(pieces)
    ensures Lex(TextOf(pieces), position) == Tokens(TokensOf(pieces, position))
    decreases |pieces|
  {
    hide Lex, Spelling, ValidPiece, Stops, NeedsBlank;
    LexEnds(position);
    if pieces != [] {
      var p, rest := pieces[0], TextOf(pieces[1..]);
      assert TextOf(pieces) == Spelling(p) + (p.blank + rest);
      FirstPiece(pieces);
      LexPiece(p, p.blank + rest, position);
      SkipBlanks(p.blank, rest, position + |Spelling(p)|);
      LexUndoesLayout(pieces[1..], position + |Spelling(p)| + |p.blank|);
    }
  }

  // ----- Nothing else is accepted, but for one last quote ---------------------

  /** An unclosed literal: the text of `pieces` lacks the last quote, and another quote stands at the end. */
  predicate LacksQuote(s: string, pieces: seq<Piece>) {
    && s != "" && s[|s| - 1] == QUOTE
    && pieces != [] && pieces[|pieces| - 1].kind == StringLiteral && pieces[|pieces| - 1].blank == ""
  }

  predicate SameWords(a: seq<Token>, b: seq<Token>) {
    |a| == |b| && forall i :: 0 <= i < |a| ==> a[i].kind == b[i].kind && a[i].text == b[i].text
  }

  /** What was read as a literal is the doubled text, and the closing quote if there is one. */
  lemma {:induction false} LiteralIsDoubled(s: string)
    ensures var r := LiteralIn(s);
      if r.closed then s == Doubled(r.text) + ([QUOTE] + s[r.length..]) && (r.length < |s| ==> s[r.length] != QUOTE)
      else s == Doubled(r.text) + ""
    decreases |s|
  {
    hide Doubled;
    DoubledNothing();
    var r := LiteralIn(s);
    if s != "" && (s[0] != QUOTE || (|s| > 1 && s[1] == QUOTE)) {
      var k := if s[0] == QUOTE then 2 else 1;
      var rest := LiteralIn(s[k..]);
      LiteralIsDoubled(s[k..]);
      assert r.text[1..] == rest.text;
      DoubledStep(r.text, if r.closed then [QUOTE] + s[r.length..] else "");
      assert s == s[..k] + s[k..] && s[..k] == (if s[0] == QUOTE then [QUOTE, QUOTE] else [s[0]]);
      assert r.closed ==> s[r.length..] == s[k..][rest.length..];
    } else if s != "" {
      assert s == "" + ([QUOTE] + s[1..]);
    }
  }

  lemma DoubledNothing()
    ensures Doubled("") == ""
  {
  }

  /** A piece in front of a layout, when nothing behind it runs on. */
  lemma WithPiece(p: Piece, pieces: seq<Piece>, position: nat)
    requires ValidPiece(p) && Layout(pieces) && Stops(p.kind, p.blank + TextOf(pieces))
    ensures var all := [p] + pieces;
      && Layout(all) && TextOf(all) == Spelling(p) + (p.blank + TextOf(pieces))
      && TokensOf(all, position) ==
           [Token(p.kind, p.text, position)] + TokensOf(pieces, position + |Spelling(p)| + |p.blank|)
  {
    var all := [p] + pieces;
    assert all[1..] == pieces;
    assert Spelling(p) + p.blank + TextOf(pieces) == Spelling(p) + (p.blank + TextOf(pieces));
    assert p.blank == "" ==> p.blank + TextOf(pieces) == TextOf(pieces);
    if pieces != [] {
      assert ValidPiece(pieces[0]) && TextOf(pieces)[0] == Spelling(pieces[0])[0];
    }
    forall i | 0 <= i < |all| - 1 && NeedsBlank(all[i].kind, all[i + 1].kind) ensures all[i].blank != "" {
      if i > 0 {
        assert all[i] == pieces[i - 1] && all[i + 1] == pieces[i];
      }
    }
  }

  /** The text starts with this token, of length `n`, and what follows does not belong to it. */
  predicate Begins(s: string, n: nat, p: Piece, position: nat) {
    && 0 < n <= |s| && ValidPiece(p) && p.blank == "" && s[..n] == Spelling(p) && Stops(p.kind, s[n..])
    && Lex(s, position) == Prepend(Token(p.kind, p.text, position), Lex(s[n..], position + n))
  }

  lemma WordSplits(s: string)
    requires s != "" && StartsWord(s[0])
    ensures var word, rest := s[..WordLength(s)], s[WordLength(s)..];
      s == word + rest && IsWord(word) && Stops(Identifier, rest)
  {
  }

  lemma BeginsAfter(s: string, word: string, rest: string, position: nat)
    requires s == word + rest && IsWord(word) && Stops(Identifier, rest)
    requires Lex(s, position) == Prepend(Token(WordKind(word), word, position), Lex(rest, position + |word|))
    ensures Begins(s, |word|, Piece(WordKind(word), word, ""), position)
  {
  }

  lemma BeginsWithWord(s: string, position: nat)
    requires s != "" && StartsWord(s[0])
    ensures var n := WordLength(s); Begins(s, n, Piece(WordKind(s[..n]), s[..n], ""), position)
  {
    hide *;
    WordSplits(s);
    var word, rest := s[..WordLength(s)], s[WordLength(s)..];
    LexWord(word, rest, position);
    BeginsAfter(s, word, rest, position);
  }

  lemma BeginsWithLiteral(s: string, position: nat)
    requires s != "" && s[0] == QUOTE && LiteralIn(s[1..]).closed
    ensures var literal := LiteralIn(s[1..]);
      Begins(s, literal.length + 1, Piece(StringLiteral, literal.text, ""), position)
  {
    hide LiteralIn;
    var literal := LiteralIn(s[1..]);
    LiteralIsDoubled(s[1..]);
    var n := |Doubled(literal.text)| + 2;
    assert s == [QUOTE] + s[1..];
    assert |s[1..]| == |Doubled(literal.text)| + 1 + |s[1..][literal.length..]|;
    assert s[..n] == [QUOTE] + Doubled(literal.text) + [QUOTE];
    assert ([QUOTE] + s[1..])[literal.length] == s[literal.length];
  }

  lemma EndsUnclosed(s: string, position: nat)
    requires s != "" && s[0] == QUOTE && !LiteralIn(s[1..]).closed && Lex(s, position).Tokens?
    ensures var pieces := [Piece(StringLiteral, LiteralIn(s[1..]).text, "")];
      && Layout(pieces) && LacksQuote(s, pieces) && s + [QUOTE] == TextOf(pieces)
      && SameWords(Lex(s, position).tokens, TokensOf(pieces, position))
  {
    hide LiteralIn;
    LiteralIsDoubled(s[1..]);
    assert s == [QUOTE] + s[1..];
    assert s[1 + LiteralIn(s[1..]).length..] == "";
    LexEnds(position + |s|);
  }

  /** Every accepted text is a layout of its tokens, or becomes one when a closing quote is added at the end. */
  lemma {:induction false} AcceptedIsLayout(s: string, position: nat)
    returns (lead: string, pieces: seq<Piece>, closing: string)
    requires Lex(s, position).Tokens?
    ensures IsBlank(lead) && Layout(pieces) && s + closing == lead + TextOf(pieces)
    ensures closing == "" || (closing == [QUOTE] && LacksQuote(s, pieces))
    ensures SameWords(Lex(s, position).tokens, TokensOf(pieces, position + |lead|))
    decreases |s|
  {
    hide LiteralIn, WordLength, Begins, TextOf, TokensOf, Layout, LacksQuote;
    lead, pieces, closing := "", [], "";
    if s == "" {
      LayoutEnds(position);
    } else if IsSpace(s[0]) {
      lead, pieces, closing := AcceptedIsLayout(s[1..], position + 1);
      BlankInFront(s, lead, pieces, closing);
      lead := [s[0]] + lead;
    } else if s[0] == QUOTE {
      if LiteralIn(s[1..]).closed {
        BeginsWithLiteral(s, position);
        var literal := LiteralIn(s[1..]);
        pieces, closing := AcceptedBehind(s, literal.length + 1, Piece(StringLiteral, literal.text, ""), position);
      } else {
        EndsUnclosed(s, position);
        pieces, closing := [Piece(StringLiteral, LiteralIn(s[1..]).text, "")], [QUOTE];
      }
    } else if StartsWord(s[0]) {
      var n := WordLength(s);
      BeginsWithWord(s, position);
      pieces, closing := AcceptedBehind(s, n, Piece(WordKind(s[..n]), s[..n], ""), position);
    } else {
      BeginsWithSymbol(s, position);
      pieces, closing := AcceptedBehind(s, 1, Piece(SymbolKind(s[0]), [s[0]], ""), position);
    }
    assert "" + TextOf(pieces) == TextOf(pieces);
  }

  lemma BlankInFront(s: string, lead: string, pieces: seq<Piece>, closing: string)
    requires s != "" && IsSpace(s[0]) && s[1..] + closing == lead + TextOf(pieces)
    requires closing == "" || (closing == [QUOTE] && LacksQuote(s[1..], pieces))
    ensures s + closing == [s[0]] + lead + TextOf(pieces)
    ensures closing == "" || LacksQuote(s, pieces)
  {
    hide TextOf;
    assert s + closing == [s[0]] + (s[1..] + closing);
    assert [s[0]] + (lead + TextOf(pieces)) == [s[0]] + lead + TextOf(pieces);
  }

  lemma BeginsWithSymbol(s: string, position: nat)
    requires s != "" && SymbolKind(s[0]) != End && !IsSpace(s[0]) && !StartsWord(s[0]) && s[0] != QUOTE
    ensures Begins(s, 1, Piece(SymbolKind(s[0]), [s[0]], ""), position)
  {
  }

  lemma LayoutEnds(position: nat)
    ensures Layout([]) && "" + "" == "" + TextOf([])
    ensures TokensOf([], position) == [Token(End, "", position)] == Lex("", position).tokens
  {
  }

  /** A token of length `n` at the start of an accepted text. */
  lemma {:induction false} AcceptedBehind(s: string, n: nat, p: Piece, position: nat)
    returns (pieces: seq<Piece>, closing: string)
    requires Lex(s, position).Tokens? && Begins(s, n, p, position)
    ensures Layout(pieces) && s + closing == TextOf(pieces)
    ensures closing == "" || (closing == [QUOTE] && LacksQuote(s, pieces))
    ensures SameWords(Lex(s, position).tokens, TokensOf(pieces, position))
    decreases |s|, 0
  {
    hide Lex, Spelling, TextOf, TokensOf, Layout;
    var lead, rest, quote := AcceptedIsLayout(s[n..], position + n);
    var q := p.(blank := lead);
    SpellingIgnoresBlank(p, lead);
    WithPiece(q, rest, position);
    pieces, closing := [q] + rest, quote;
    assert s + closing == s[..n] + (s[n..] + closing);
  }

  lemma SpellingIgnoresBlank(p: Piece, blank: string)
    ensures Spelling(p.(blank := blank)) == Spelling(p)
  {
  }

  lemma {:induction false} OpenLiteral(value: string)
    ensures LiteralIn(Doubled(value)) == Literal(value, |Doubled(value)|, false)
    decreases |value|
  {
    if value != "" {
      OpenLiteral(value[1..]);
      var s, more := Doubled(value), Doubled(value[1..]);
      assert value == [value[0]] + value[1..];
      assert if value[0] == QUOTE then s[2..] == more else s[1..] == more;
    }
  }

  /** A layout without its last quote is read like the whole layout, when it still ends in a quote. */
  lemma {:induction false} CutLayout(s: string, pieces: seq<Piece>, position: nat)
    requires Layout(pieces) && LacksQuote(s, pieces) && s + [QUOTE] == TextOf(pieces)
    ensures Lex(s, position).Tokens? && SameWords(Lex(s, position).tokens, TokensOf(pieces, position))
    decreases |pieces|
  {
    hide *;
    LacksQuoteMeans(s, pieces);
    if |pieces| == 1 {
      assert pieces == [pieces[0]];
      CutLiteral(s, pieces[0], position);
    } else {
      CutRest(s, pieces, position);
    }
  }

  lemma LacksQuoteMeans(s: string, pieces: seq<Piece>)
    requires LacksQuote(s, pieces)
    ensures s != "" && s[|s| - 1] == QUOTE && pieces != []
    ensures pieces[|pieces| - 1].kind == StringLiteral && pieces[|pieces| - 1].blank == ""
  {
  }

  lemma CutLiteral(s: string, p: Piece, position: nat)
    requires p.kind == StringLiteral && p.blank == "" && s != "" && s[|s| - 1] == QUOTE && s + [QUOTE] == TextOf([p])
    ensures Lex(s, position).Tokens? && SameWords(Lex(s, position).tokens, TokensOf([p], position))
  {
    hide LiteralIn, WordLength, Doubled;
    var body := Doubled(p.text);
    OpenLiteral(p.text);
    OneLiteral(p);
    assert s == (s + [QUOTE])[..|s|] && [QUOTE] + body == ([QUOTE] + body + [QUOTE])[..|body| + 1];
    assert s == [QUOTE] + body && s[1..] == body && s[|body| + 1..] == "";
    LexEnds(position + |s|);
  }

  lemma OneLiteral(p: Piece)
    requires p.kind == StringLiteral && p.blank == ""
    ensures TextOf([p]) == [QUOTE] + Doubled(p.text) + [QUOTE]
  {
    hide Doubled;
    assert [p][1..] == [];
    assert TextOf([]) == "";
  }

  lemma CutQuote(s: string, front: string, text: string)
    requires s + [QUOTE] == front + text && |text| > 1
    ensures var cut := text[..|text| - 1];
      s == front + cut && cut + [QUOTE] == text && cut[|cut| - 1] == s[|s| - 1]
  {
    assert s == (s + [QUOTE])[..|s|];
    assert text[|text| - 1] == (s + [QUOTE])[|s|];
  }

  lemma {:induction false} CutRest(s: string, pieces: seq<Piece>, position: nat)
    requires Layout(pieces) && LacksQuote(s, pieces) && s + [QUOTE] == TextOf(pieces) && |pieces| > 1
    ensures Lex(s, position).Tokens? && SameWords(Lex(s, position).tokens, TokensOf(pieces, position))
    decreases |pieces|, 0
  {
    hide Lex, ValidPiece, NeedsBlank, Spelling;
    var p, rest := pieces[0], pieces[1..];
    FirstPiece(pieces);
    var text := TextOf(rest);
    LastIsLiteral(rest);
    var cut := text[..|text| - 1];
    assert TextOf(pieces) == Spelling(p) + p.blank + text;
    CutQuote(s, Spelling(p) + p.blank, text);
    assert s == Spelling(p) + (p.blank + cut);
    LexPiece(p, p.blank + cut, position);
    SkipBlanks(p.blank, cut, position + |Spelling(p)|);
    CutLayout(cut, rest, position + |Spelling(p)| + |p.blank|);
  }

  lemma {:induction false} LastIsLiteral(pieces: seq<Piece>)
    requires pieces != [] && pieces[|pieces| - 1].kind == StringLiteral && pieces[|pieces| - 1].blank == ""
    ensures |TextOf(pieces)| >= 2 && TextOf(pieces)[|TextOf(pieces)| - 1] == QUOTE
  {
    hide *;
    if |pieces| > 1 {
      LastIsLiteral(pieces[1..]);
      TextEndsInRest(pieces);
    } else {
      assert pieces == [pieces[0]];
      OneLiteral(pieces[0]);
    }
  }

  lemma TextEndsInRest(pieces: seq<Piece>)
    requires pieces != [] && TextOf(pieces[1..]) != ""
    ensures var text, rest := TextOf(pieces), TextOf(pieces[1..]);
      |text| >= |rest| && text[|text| - 1] == rest[|rest| - 1]
  {
    hide Spelling;
  }

  ghost predicate IsLayout(s: string) {
    exists lead, pieces :: IsBlank(lead) && Layout(pieces) && s == lead + TextOf(pieces)
  }

  ghost predicate IsUnclosed(s: string) {
    exists lead, pieces ::
      IsBlank(lead) && Layout(pieces) && LacksQuote(s, pieces) && s + [QUOTE] == lead + TextOf(pieces)
  }

  /** A text is accepted if and only if it is a layout, or one that lacks the last quote and ends in another. */
  lemma AcceptsExactly(s: string, position: nat)
    ensures Lex(s, position).Tokens? <==> IsLayout(s) || IsUnclosed(s)
  {
    hide Lex, Layout, TextOf, TokensOf;
    if Lex(s, position).Tokens? {
      var lead, pieces, closing := AcceptedIsLayout(s, position);
      assert s + "" == s;
    }
    if IsLayout(s) {
      var lead, pieces :| IsBlank(lead) && Layout(pieces) && s == lead + TextOf(pieces);
      SkipBlanks(lead, TextOf(pieces), position);
      LexUndoesLayout(pieces, position + |lead|);
    }
    if IsUnclosed(s) {
      var lead, pieces :|
        IsBlank(lead) && Layout(pieces) && LacksQuote(s, pieces) && s + [QUOTE] == lead + TextOf(pieces);
      LastIsLiteral(pieces);
      var cut := TextOf(pieces)[..|TextOf(pieces)| - 1];
      CutQuote(s, lead, TextOf(pieces));
      SkipBlanks(lead, cut, position);
      CutLayout(cut, pieces, position + |lead|);
    }
  }

  /** A lone quote is accepted as an empty literal, and one that ends in a doubled quote as if it were closed. */
  lemma UnclosedLiteralsAreRead()
    ensures Lex("'", 0) == Tokens([Token(StringLiteral, "", 0), Token(End, "", 1)])
    ensures Lex("'a''", 0) == Tokens([Token(StringLiteral, "a'", 0), Token(End, "", 4)])
    ensures Lex("'a", 0) == Unterminated(0)
  {
    var s := "'a''";
    assert s[1..] == "a''" && "a''"[1..] == "''" && "''"[2..] == "" && s[4..] == "";
    assert LiteralIn("''") == Literal("'", 2, false);
    assert LiteralIn("a''") == Literal("a'", 3, false);
    assert "'"[1..] == "" && LiteralIn("") == Literal("", 0, false);
    assert "'a"[1..] == "a" && "a"[1..] == "" && LiteralIn("a") == Literal("a", 1, false);
  }

  // ----- Which error every other text gives ----------------------------------

  /** A text that begins with what no token begins with: a stray character, or a literal that does not end. */
  ghost predicate Fault(rest: string) {
    && rest != ""
    && if rest[0] == QUOTE then (exists value :: rest[1..] == Doubled(value)) && rest[|rest| - 1] != QUOTE
       else !IsSpace(rest[0]) && !StartsWord(rest[0]) && rest[0] !in "*=,();"
  }

  function FaultAt(rest: string, position: nat): LexResult
    requires rest != ""
  {
    if rest[0] == QUOTE then Unterminated(position) else UnexpectedCharacter(rest[0], position)
  }

  /** What stands behind the layout does not run into its last piece. */
  predicate Apart(pieces: seq<Piece>, rest: string) {
    pieces == [] || pieces[|pieces| - 1].blank != "" || Stops(pieces[|pieces| - 1].kind, rest)
  }

  ghost predicate FaultBehind(s: string, lead: string, pieces: seq<Piece>, rest: string) {
    && IsBlank(lead) && Layout(pieces) && Apart(pieces, rest)
    && s == lead + (TextOf(pieces) + rest) && rest != "" && Fault(rest)
  }

  lemma SymbolAlphabet(c: char)
    ensures SymbolKind(c) == End <==> c !in "*=,();"
  {
  }

  lemma FaultIsTold(rest: string, position: nat)
    requires Fault(rest)
    ensures Lex(rest, position) == FaultAt(rest, position)
  {
    hide LiteralIn, Doubled, WordLength;
    SymbolAlphabet(rest[0]);
    if rest[0] == QUOTE {
      var value :| rest[1..] == Doubled(value);
      OpenLiteral(value);
      assert ([QUOTE] + rest[1..])[|rest[1..]|] == rest[|rest| - 1];
    }
  }

  lemma StopsAtFirst(kind: TokenType, front: string, rest: string)
    requires front != "" && Stops(kind, front)
    ensures Stops(kind, front + rest)
  {
    assert (front + rest)[0] == front[0];
  }

  lemma BlankStops(kind: TokenType, blank: string, rest: string)
    requires IsBlank(blank) && blank != ""
    ensures Stops(kind, blank + rest)
  {
    assert (blank + rest)[0] == blank[0] && IsSpace(blank[0]);
  }

  lemma LayoutHasText(pieces: seq<Piece>)
    requires Layout(pieces) && pieces != []
    ensures TextOf(pieces) != ""
  {
    assert ValidPiece(pieces[0]);
  }

  lemma FirstPieceBefore(pieces: seq<Piece>, rest: string)
    requires Layout(pieces) && pieces != [] && Apart(pieces, rest)
    ensures ValidPiece(pieces[0]) && IsBlank(pieces[0].blank) && Layout(pieces[1..]) && Apart(pieces[1..], rest)
    ensures Stops(pieces[0].kind, pieces[0].blank + (TextOf(pieces[1..]) + rest))
    ensures TextOf(pieces) + rest == Spelling(pieces[0]) + (pieces[0].blank + (TextOf(pieces[1..]) + rest))
  {
    hide Spelling, Stops, Layout, ValidPiece, IsBlank, TextOf;
    var p, more := pieces[0], pieces[1..];
    var text := TextOf(more);
    FirstPiece(pieces);
    TextOfStep(pieces);
    TextOfNone();
    FourParts(Spelling(p), p.blank, text, rest);
    if p.blank != "" {
      BlankStops(p.kind, p.blank, text + rest);
    } else {
      assert p.blank + (text + rest) == text + rest && p.blank + text == text;
      if more == [] {
        assert text + rest == rest;
      } else {
        LayoutHasText(more);
        StopsAtFirst(p.kind, text, rest);
      }
    }
  }

  lemma {:induction false} LayoutThenFault(pieces: seq<Piece>, rest: string, position: nat)
    requires Layout(pieces) && Apart(pieces, rest) && Fault(rest)
    ensures Lex(TextOf(pieces) + rest, position) == FaultAt(rest, position + |TextOf(pieces)|)
    decreases |pieces|
  {
    hide Lex, Spelling, ValidPiece, Stops, Apart, Layout, Fault;
    if pieces == [] {
      assert TextOf(pieces) + rest == rest;
      FaultIsTold(rest, position);
    } else {
      var p, more := pieces[0], TextOf(pieces[1..]) + rest;
      FirstPieceBefore(pieces, rest);
      LexPiece(p, p.blank + more, position);
      SkipBlanks(p.blank, more, position + |Spelling(p)|);
      LayoutThenFault(pieces[1..], rest, position + |Spelling(p)| + |p.blank|);
      assert |TextOf(pieces)| == |Spelling(p)| + |p.blank| + |TextOf(pieces[1..])|;
    }
  }

  /** A text that is not accepted is a layout up to the place of the error, and goes wrong there. */
  lemma {:induction false} RefusedHasFault(s: string, position: nat)
    returns (lead: string, pieces: seq<Piece>, rest: string)
    requires !Lex(s, position).Tokens?
    ensures FaultBehind(s, lead, pieces, rest)
    decreases |s|, 1
  {
    hide LiteralIn, WordLength, Begins, TextOf, Layout, Apart, Fault;
    lead, pieces, rest := "", [], s;
    if IsSpace(s[0]) {
      lead, pieces, rest := RefusedHasFault(s[1..], position + 1);
      assert s == [s[0]] + s[1..];
      assert s == [s[0]] + lead + (TextOf(pieces) + rest);
      lead := [s[0]] + lead;
    } else if s[0] == QUOTE {
      if LiteralIn(s[1..]).closed {
        BeginsWithLiteral(s, position);
        var literal := LiteralIn(s[1..]);
        pieces, rest := FaultAfter(s, literal.length + 1, Piece(StringLiteral, literal.text, ""), position);
      } else {
        OpenIsFault(s, position);
      }
    } else if StartsWord(s[0]) {
      var n := WordLength(s);
      BeginsWithWord(s, position);
      pieces, rest := FaultAfter(s, n, Piece(WordKind(s[..n]), s[..n], ""), position);
    } else if SymbolKind(s[0]) == End {
      StrayIsFault(s);
    } else {
      BeginsWithSymbol(s, position);
      pieces, rest := FaultAfter(s, 1, Piece(SymbolKind(s[0]), [s[0]], ""), position);
    }
    assert s == "" + s;
  }

  lemma NothingBefore(rest: string)
    ensures Layout([]) && Apart([], rest) && "" + (TextOf([]) + rest) == rest && IsBlank("")
  {
  }

  lemma StrayIsFault(s: string)
    requires s != "" && !IsSpace(s[0]) && !StartsWord(s[0]) && s[0] != QUOTE && SymbolKind(s[0]) == End
    ensures FaultBehind(s, "", [], s)
  {
    hide TextOf;
    SymbolAlphabet(s[0]);
    NothingBefore(s);
  }

  lemma OpenIsFault(s: string, position: nat)
    requires s != "" && s[0] == QUOTE && !LiteralIn(s[1..]).closed && !Lex(s, position).Tokens?
    ensures FaultBehind(s, "", [], s)
  {
    hide LiteralIn, Doubled, TextOf, WordLength;
    LiteralIsDoubled(s[1..]);
    var literal := LiteralIn(s[1..]);
    assert Doubled(literal.text) + "" == Doubled(literal.text);
    assert s[1 + literal.length..] == "";
    LexEnds(position + |s|);
    assert ([QUOTE] + s[1..])[literal.length] == s[|s| - 1];
    NothingBefore(s);
  }

  /** A token of length `n` in front of a text that is not accepted. */
  lemma {:induction false} FaultAfter(s: string, n: nat, p: Piece, position: nat)
    returns (pieces: seq<Piece>, rest: string)
    requires !Lex(s, position).Tokens? && Begins(s, n, p, position)
    ensures FaultBehind(s, "", pieces, rest)
    decreases |s|, 0
  {
    hide Lex, Spelling, TextOf, Fault, Layout, Apart, ValidPiece;
    var lead, more;
    lead, more, rest := RefusedHasFault(s[n..], position + n);
    var q := p.(blank := lead);
    PieceWithBlank(p, lead);
    pieces := [q] + more;
    SpellingIgnoresBlank(p, lead);
    PieceInFront(q, more, rest);
    assert s == s[..n] + s[n..];
    assert s == "" + (TextOf(pieces) + rest);
  }

  lemma PieceInFront(p: Piece, pieces: seq<Piece>, rest: string)
    requires ValidPiece(p) && Layout(pieces) && Apart(pieces, rest)
    requires Stops(p.kind, p.blank + (TextOf(pieces) + rest))
    ensures var all := [p] + pieces;
      Layout(all) && Apart(all, rest) && TextOf(all) + rest == Spelling(p) + (p.blank + (TextOf(pieces) + rest))
  {
    hide Spelling, Stops, Layout, ValidPiece, TextOf, Apart;
    StopsBeforeRest(p, pieces, rest);
    ApartBehind(p, pieces, rest);
    WithPiece(p, pieces, 0);
    FourParts(Spelling(p), p.blank, TextOf(pieces), rest);
    assert Spelling(p) + (p.blank + TextOf(pieces)) == Spelling(p) + p.blank + TextOf(pieces);
  }

  lemma StopsBeforeRest(p: Piece, pieces: seq<Piece>, rest: string)
    requires ValidPiece(p) && Layout(pieces) && Stops(p.kind, p.blank + (TextOf(pieces) + rest))
    ensures Stops(p.kind, p.blank + TextOf(pieces))
  {
    hide Stops, Layout, ValidPiece, TextOf;
    var text := TextOf(pieces);
    if pieces == [] {
      TextOfNone();
      PieceWithBlank(p, "");
      NothingStops(p.kind, p.blank);
      assert p.blank + "" == p.blank;
    } else {
      LayoutHasText(pieces);
      assert p.blank + (text + rest) == p.blank + text + rest;
      StopsBefore(p.kind, p.blank + text, rest);
    }
  }

  lemma ApartBehind(p: Piece, pieces: seq<Piece>, rest: string)
    requires Apart(pieces, rest) && Stops(p.kind, p.blank + (TextOf(pieces) + rest))
    ensures Apart([p] + pieces, rest)
  {
    hide Stops;
    if pieces == [] {
      assert p.blank == "" ==> p.blank + ("" + rest) == rest;
    }
  }

  lemma TextOfStep(pieces: seq<Piece>)
    requires pieces != []
    ensures TextOf(pieces) == Spelling(pieces[0]) + pieces[0].blank + TextOf(pieces[1..])
  {
  }

  lemma FourParts(a: string, b: string, c: string, d: string)
    ensures a + b + c + d == a + (b + (c + d))
  {
  }

  lemma PieceWithBlank(p: Piece, blank: string)
    ensures ValidPiece(p) ==> IsBlank(p.blank)
    ensures ValidPiece(p) && IsBlank(blank) ==> ValidPiece(p.(blank := blank))
  {
  }

  lemma TextOfNone()
    ensures TextOf([]) == ""
  {
  }

  lemma NothingStops(kind: TokenType, blank: string)
    requires IsBlank(blank)
    ensures Stops(kind, blank)
  {
    assert blank != "" && IsBlank(blank) ==> IsSpace(blank[0]);
  }

  lemma StopsBefore(kind: TokenType, front: string, rest: string)
    requires front != "" && Stops(kind, front + rest)
    ensures Stops(kind, front)
  {
    assert (front + rest)[0] == front[0];
  }

  /** A text is refused, with an error at a position, if and only if it is a layout up to there and goes wrong there. */
  lemma RefusesExactly(s: string, position: nat, error: LexResult)
    requires !error.Tokens?
    ensures Lex(s, position) == error <==> exists lead, pieces, rest ::
      FaultBehind(s, lead, pieces, rest) && error == FaultAt(rest, position + |lead| + |TextOf(pieces)|)
  {
    hide Lex, Fault, TextOf, Layout, Apart;
    if !Lex(s, position).Tokens? {
      var lead, pieces, rest := RefusedHasFault(s, position);
      FaultIsFound(s, lead, pieces, rest, position);
    }
    if lead, pieces, rest :|
      FaultBehind(s, lead, pieces, rest) && error == FaultAt(rest, position + |lead| + |TextOf(pieces)|)
    {
      FaultIsFound(s, lead, pieces, rest, position);
    }
  }

  lemma FaultIsFound(s: string, lead: string, pieces: seq<Piece>, rest: string, position: nat)
    requires FaultBehind(s, lead, pieces, rest)
    ensures rest != "" && Lex(s, position) == FaultAt(rest, position + |lead| + |TextOf(pieces)|)
  {
    hide Lex, TextOf, Layout, Apart;
    SkipBlanks(lead, TextOf(pieces) + rest, position);
    LayoutThenFault(pieces, rest, position + |lead|);
  }
}
