/**
  The grammar that src/sql/parser.c accepts, and the round trip through lexer and
  parser: a statement comes back from every layout of every spelling of it.
*/
module SqlRoundTrip {
  import opened Wrappers
  import opened Text
  import opened Ast
  import opened SqlLexer
  import opened SqlLayout
  import opened SqlParser

  // ----- The grammar ---------------------------------------------------------

  /** The same text but for the case of letters. */
  predicate AnyCase(text: string, word: string) {
    |text| == |word| && forall i :: 0 <= i < |text| ==> SameLetter(text[i], word[i])
  }

  predicate Keyword(token: Token, word: string) {
    token.kind == Identifier && AnyCase(token.text, word)
  }

  /** Names are bare words; values are literals, numbers or bare words. */
  predicate ItemKind(kind: TokenType, what: ListOf) {
    match what
    case Identifiers => kind == Identifier
    case Values => kind == StringLiteral || kind == Number || kind == Identifier
  }

  /** The tokens from `i` on are these items with commas between them. */
  predicate SpellsList(tokens: seq<Token>, i: nat, items: seq<string>, what: ListOf) {
    && items != [] && i + 2 * |items| - 1 < |tokens|
    && (forall k :: 0 <= k < |items| ==> ItemKind(tokens[i + 2 * k].kind, what) && tokens[i + 2 * k].text == items[k])
    && forall k :: 0 <= k < |items| - 1 ==> tokens[i + 2 * k + 1].kind == Comma
  }

  predicate SpellsEnd(tokens: seq<Token>, i: nat) {
    |tokens| == i + 2 && tokens[i].kind == Semicolon && tokens[i + 1].kind == End
  }

  /** INSERT INTO table ( columns ) VALUES ( values ) ; */
  predicate SpellsInsert(tokens: seq<Token>, insert: InsertStatement) {
    var n := 3 + 2 * |insert.columns|;
    var m := n + 2 + 2 * |insert.values|;
    && SpellsEnd(tokens, m + 1) && SpellsList(tokens, 4, insert.columns, Identifiers)
    && SpellsList(tokens, n + 3, insert.values, Values)
    && Keyword(tokens[0], "INSERT") && Keyword(tokens[1], "INTO")
    && tokens[2].kind == Identifier && tokens[2].text == insert.tableName && tokens[3].kind == LeftParen
    && tokens[n].kind == RightParen && Keyword(tokens[n + 1], "VALUES") && tokens[n + 2].kind == LeftParen
    && tokens[m].kind == RightParen
  }

  predicate SpellsColumns(tokens: seq<Token>, select: SelectStatement) {
    if select.selectAll then select.columns == [] && |tokens| > 1 && tokens[1].kind == Star
    else SpellsList(tokens, 1, select.columns, Identifiers)
  }

  predicate SpellsWhere(tokens: seq<Token>, i: nat, condition: Option<Condition>) {
    match condition
    case None => SpellsEnd(tokens, i)
    case Some(c) =>
      && SpellsEnd(tokens, i + 4)
      && Keyword(tokens[i], "WHERE") && tokens[i + 1].kind == Identifier && tokens[i + 1].text == c.column
      && tokens[i + 2].kind == EqualSign && ItemKind(tokens[i + 3].kind, Values) && tokens[i + 3].text == c.value
  }

  /** SELECT * or columns FROM table, WHERE column = value or not, ; */
  predicate SpellsSelect(tokens: seq<Token>, select: SelectStatement) {
    var n := if select.selectAll then 2 else 2 * |select.columns|;
    && SpellsWhere(tokens, n + 2, select.where) && SpellsColumns(tokens, select)
    && Keyword(tokens[0], "SELECT") && Keyword(tokens[n], "FROM")
    && tokens[n + 1].kind == Identifier && tokens[n + 1].text == select.tableName
  }

  predicate Spells(tokens: seq<Token>, statement: Statement) {
    match statement
    case Insert(insert) => SpellsInsert(tokens, insert)
    case Select(select) => SpellsSelect(tokens, select)
  }

  // ----- The parser accepts exactly the grammar ------------------------------

  lemma KeywordMeans(token: Token, word: string)
    ensures IsKeyword(token, word) <==> Keyword(token, word)
    ensures IsKeyword(token, word) ==> token.kind == Identifier
  {
    IgnoringCaseMeans(token.text, word);
  }

  /** What the parser tests of each token is what the grammar says. */
  lemma TestsMean(tokens: seq<Token>)
    ensures forall i, word :: 0 <= i < |tokens| ==> (IsKeyword(tokens[i], word) <==> Keyword(tokens[i], word))
    ensures forall i, word :: 0 <= i < |tokens| && IsKeyword(tokens[i], word) ==> tokens[i].kind == Identifier
    ensures forall i, what :: 0 <= i < |tokens| ==> (IsItem(tokens[i], what) <==> ItemKind(tokens[i].kind, what))
    ensures forall i :: 0 <= i < |tokens| ==> (IsValue(tokens[i]) <==> ItemKind(tokens[i].kind, Values))
  {
    hide IsKeyword, Keyword;
    forall i, word | 0 <= i < |tokens|
      ensures IsKeyword(tokens[i], word) <==> Keyword(tokens[i], word)
      ensures IsKeyword(tokens[i], word) ==> tokens[i].kind == Identifier
    {
      KeywordMeans(tokens[i], word);
    }
  }

  lemma {:induction false} ListAccepts(tokens: seq<Token>, i: nat, what: ListOf)
    requires Terminated(tokens) && i < |tokens|
    ensures ParseList(tokens, i, what).Parsed? ==>
      var r := ParseList(tokens, i, what);
      SpellsList(tokens, i, r.value, what) && r.next == i + 2 * |r.value| - 1 && tokens[r.next].kind != Comma
    decreases |tokens| - i
  {
    hide SpellsList, IsItem;
    var r := ParseList(tokens, i, what);
    if r.Parsed? {
      if tokens[i + 1].kind == Comma {
        ListAccepts(tokens, i + 2, what);
        SpellsMore(tokens, i, ParseList(tokens, i + 2, what).value, what);
      } else {
        SpellsOne(tokens, i, what);
      }
    }
  }

  lemma SpellsOne(tokens: seq<Token>, i: nat, what: ListOf)
    requires i + 1 < |tokens| && IsItem(tokens[i], what)
    ensures SpellsList(tokens, i, [tokens[i].text], what)
  {
  }

  lemma SpellsMore(tokens: seq<Token>, i: nat, rest: seq<string>, what: ListOf)
    requires SpellsList(tokens, i + 2, rest, what) && IsItem(tokens[i], what) && tokens[i + 1].kind == Comma
    ensures SpellsList(tokens, i, [tokens[i].text] + rest, what)
  {
    var items := [tokens[i].text] + rest;
    forall k | 0 <= k < |items|
      ensures ItemKind(tokens[i + 2 * k].kind, what) && tokens[i + 2 * k].text == items[k]
      ensures k < |items| - 1 ==> tokens[i + 2 * k + 1].kind == Comma
    {
      if k > 0 {
        assert tokens[i + 2 * k] == tokens[i + 2 + 2 * (k - 1)] && items[k] == rest[k - 1];
        assert k - 1 < |rest| - 1 ==> tokens[i + 2 + 2 * (k - 1) + 1].kind == Comma;
      }
    }
  }

  lemma SpellsListStep(tokens: seq<Token>, i: nat, items: seq<string>, what: ListOf)
    requires SpellsList(tokens, i, items, what)
    ensures IsItem(tokens[i], what) && tokens[i].text == items[0]
    ensures |items| > 1 ==> tokens[i + 1].kind == Comma && SpellsList(tokens, i + 2, items[1..], what)
  {
    assert ItemKind(tokens[i + 2 * 0].kind, what) && tokens[i + 2 * 0].text == items[0];
    var rest := items[1..];
    if rest != [] {
      assert tokens[i + 2 * 0 + 1].kind == Comma;
      forall k | 0 <= k < |rest|
        ensures ItemKind(tokens[i + 2 + 2 * k].kind, what) && tokens[i + 2 + 2 * k].text == rest[k]
        ensures k < |rest| - 1 ==> tokens[i + 2 + 2 * k + 1].kind == Comma
      {
        assert tokens[i + 2 * (k + 1)] == tokens[i + 2 + 2 * k];
        assert k + 1 < |items| - 1 ==> tokens[i + 2 * (k + 1) + 1].kind == Comma;
      }
    }
  }

  lemma {:induction false} ListIsAccepted(tokens: seq<Token>, i: nat, items: seq<string>, what: ListOf)
    requires Terminated(tokens) && SpellsList(tokens, i, items, what) && tokens[i + 2 * |items| - 1].kind != Comma
    ensures ParseList(tokens, i, what) == Parsed(items, i + 2 * |items| - 1)
    decreases |items|
  {
    hide Terminated, IsItem;
    SpellsListStep(tokens, i, items, what);
    if |items| > 1 {
      ListIsAccepted(tokens, i + 2, items[1..], what);
      assert items == [items[0]] + items[1..];
    } else {
      assert items == [items[0]];
    }
  }

  lemma ParensAccept(tokens: seq<Token>, i: nat, what: ListOf, opening: string, closing: string)
    requires Terminated(tokens) && i < |tokens|
    ensures var r := ParseParens(tokens, i, what, opening, closing);
      r.Parsed? ==>
        && tokens[i].kind == LeftParen && SpellsList(tokens, i + 1, r.value, what)
        && r.next == i + 2 * |r.value| + 1 && tokens[r.next - 1].kind == RightParen
  {
    hide SpellsList, ParseList, IsItem;
    if tokens[i].kind == LeftParen {
      ListAccepts(tokens, i + 1, what);
    }
  }

  lemma ParensAreAccepted(tokens: seq<Token>, i: nat, items: seq<string>, what: ListOf,
                          opening: string, closing: string)
    requires Terminated(tokens) && i < |tokens| && tokens[i].kind == LeftParen && SpellsList(tokens, i + 1, items, what)
    requires tokens[i + 2 * |items|].kind == RightParen && i + 2 * |items| + 1 < |tokens|
    ensures ParseParens(tokens, i, what, opening, closing) == Parsed(items, i + 2 * |items| + 1)
  {
    hide ParseList, IsItem;
    ListIsAccepted(tokens, i + 1, items, what);
  }

  lemma InsertAccepts(tokens: seq<Token>)
    requires Terminated(tokens)
    ensures ParseStatement(tokens).Parsed? && ParseStatement(tokens).value.Insert? ==>
      SpellsInsert(tokens, ParseStatement(tokens).value.insert)
  {
    hide SpellsList, IsKeyword, Keyword, ParseSelect, ParseParens;
    TestsMean(tokens);
    var r := ParseStatement(tokens);
    if r.Parsed? && r.value.Insert? {
      ParensAccept(tokens, 3, Identifiers, COLUMNS_OPEN, COLUMNS_CLOSE);
      var n := ParseParens(tokens, 3, Identifiers, COLUMNS_OPEN, COLUMNS_CLOSE).next;
      ParensAccept(tokens, n + 1, Values, VALUES_OPEN, VALUES_CLOSE);
    }
  }

  lemma ColumnsAccept(tokens: seq<Token>)
    requires Terminated(tokens) && |tokens| > 1
    ensures var r := ParseColumns(tokens);
      r.Parsed? ==>
        if r.value.0 then r.value.1 == [] && tokens[1].kind == Star && r.next == 2
        else SpellsList(tokens, 1, r.value.1, Identifiers) && r.next == 2 * |r.value.1|
  {
    hide SpellsList, ParseList;
    ListAccepts(tokens, 1, Identifiers);
  }

  lemma WhereAccepts(tokens: seq<Token>, i: nat)
    requires Terminated(tokens) && i < |tokens|
    ensures var r := ParseWhere(tokens, i);
      r.Parsed? && SpellsEnd(tokens, r.next) ==> SpellsWhere(tokens, i, r.value)
  {
    hide IsKeyword, Keyword, ItemKind, IsValue;
    TestsMean(tokens);
  }

  lemma SelectAccepts(tokens: seq<Token>)
    requires Terminated(tokens)
    ensures ParseStatement(tokens).Parsed? && ParseStatement(tokens).value.Select? ==>
      SpellsSelect(tokens, ParseStatement(tokens).value.select)
  {
    hide SpellsList, SpellsWhere, IsKeyword, Keyword, ParseInsert, ParseColumns, ParseWhere, ItemKind, IsValue;
    TestsMean(tokens);
    var r := ParseStatement(tokens);
    if r.Parsed? && r.value.Select? {
      ColumnsAccept(tokens);
      WhereAccepts(tokens, ParseColumns(tokens).next + 2);
    }
  }

  lemma KeywordsDiffer(token: Token)
    ensures !(IsKeyword(token, "INSERT") && IsKeyword(token, "SELECT"))
    ensures IsKeyword(token, "INSERT") ==> token.kind == Identifier
  {
    assert "INSERT"[0] == 'I' && "SELECT"[0] == 'S';
  }

  lemma InsertIsAccepted(tokens: seq<Token>, insert: InsertStatement)
    requires Terminated(tokens) && SpellsInsert(tokens, insert)
    ensures ParseStatement(tokens) == Parsed(Insert(insert), |tokens|)
  {
    hide SpellsList, ParseParens, IsKeyword, Keyword;
    TestsMean(tokens);
    ParensAreAccepted(tokens, 3, insert.columns, Identifiers, COLUMNS_OPEN, COLUMNS_CLOSE);
    ParensAreAccepted(tokens, 5 + 2 * |insert.columns|, insert.values, Values, VALUES_OPEN, VALUES_CLOSE);
  }

  lemma ColumnsAreAccepted(tokens: seq<Token>, select: SelectStatement)
    requires Terminated(tokens) && SpellsColumns(tokens, select)
    requires var n := if select.selectAll then 2 else 2 * |select.columns|; n < |tokens| && tokens[n].kind == Identifier
    ensures ParseColumns(tokens) ==
      Parsed((select.selectAll, select.columns), if select.selectAll then 2 else 2 * |select.columns|)
  {
    hide ParseList;
    if !select.selectAll {
      ListIsAccepted(tokens, 1, select.columns, Identifiers);
      assert ItemKind(tokens[1 + 2 * 0].kind, Identifiers);
    }
  }

  lemma WhereIsAccepted(tokens: seq<Token>, i: nat, condition: Option<Condition>)
    requires Terminated(tokens) && SpellsWhere(tokens, i, condition)
    ensures i < |tokens| && ParseWhere(tokens, i) == Parsed(condition, |tokens| - 2) && SpellsEnd(tokens, |tokens| - 2)
  {
    hide IsKeyword, Keyword, ItemKind, IsValue;
    TestsMean(tokens);
  }

  lemma SelectIsAccepted(tokens: seq<Token>, select: SelectStatement)
    requires Terminated(tokens) && SpellsSelect(tokens, select)
    ensures ParseStatement(tokens) == Parsed(Select(select), |tokens|)
  {
    hide ParseColumns, ParseWhere, IsKeyword, Keyword, SpellsColumns, SpellsWhere;
    TestsMean(tokens);
    KeywordsDiffer(tokens[0]);
    var n := if select.selectAll then 2 else 2 * |select.columns|;
    WhereIsAccepted(tokens, n + 2, select.where);
    ColumnsAreAccepted(tokens, select);
  }

  /** The parser accepts a token list as a statement if and only if the list spells that statement. */
  lemma AcceptsExactlyTheGrammar(tokens: seq<Token>, statement: Statement)
    requires Terminated(tokens)
    ensures ParseStatement(tokens) == Parsed(statement, |tokens|) <==> Spells(tokens, statement)
    ensures ParseStatement(tokens).Parsed? ==> ParseStatement(tokens).next == |tokens|
  {
    InsertAccepts(tokens);
    SelectAccepts(tokens);
    if Spells(tokens, statement) {
      match statement
      case Insert(insert) => InsertIsAccepted(tokens, insert);
      case Select(select) => SelectIsAccepted(tokens, select);
    }
  }

  // ----- What is refused -----------------------------------------------------

  /** The two lists agree up to and including token `m`. */
  predicate AgreeUpTo(a: seq<Token>, b: seq<Token>, m: nat) {
    m < |a| && m < |b| && forall i :: 0 <= i <= m ==> a[i].kind == b[i].kind && a[i].text == b[i].text
  }

  /** How far the parser has looked. */
  function Seen<T>(r: Parsed<T>): nat {
    match r
    case Parsed(_, next) => next
    case Refused(_, at) => at
  }

  lemma {:induction false} ListIsLocal(a: seq<Token>, b: seq<Token>, i: nat, what: ListOf, m: nat)
    requires Terminated(a) && Terminated(b) && i < |a| && i < |b| && AgreeUpTo(a, b, m)
    requires Seen(ParseList(a, i, what)) <= m
    ensures i <= m && ParseList(b, i, what) == ParseList(a, i, what)
    decreases |a| - i
  {
    ListLooksAhead(a, i, what);
    if IsItem(a[i], what) && a[i + 1].kind == Comma {
      ListLooksAhead(a, i + 2, what);
      ListIsLocal(a, b, i + 2, what, m);
    }
  }

  lemma {:induction false} ListLooksAhead(tokens: seq<Token>, i: nat, what: ListOf)
    requires Terminated(tokens) && i < |tokens|
    ensures i <= Seen(ParseList(tokens, i, what)) < |tokens|
    ensures IsItem(tokens[i], what) ==> i + 1 <= Seen(ParseList(tokens, i, what))
    decreases |tokens| - i
  {
    if IsItem(tokens[i], what) && tokens[i + 1].kind == Comma {
      ListLooksAhead(tokens, i + 2, what);
    }
  }

  lemma ParensAreLocal(a: seq<Token>, b: seq<Token>, i: nat, what: ListOf, opening: string, closing: string, m: nat)
    requires Terminated(a) && Terminated(b) && i < |a| && i < |b| && AgreeUpTo(a, b, m)
    requires var r := ParseParens(a, i, what, opening, closing);
      if r.Parsed? then r.next <= m + 1 else r.at <= m
    ensures i <= m && ParseParens(b, i, what, opening, closing) == ParseParens(a, i, what, opening, closing)
  {
    hide ParseList, IsItem;
    if a[i].kind == LeftParen {
      ListLooksAhead(a, i + 1, what);
      ListIsLocal(a, b, i + 1, what, m);
    }
  }

  /** The same words are keywords in both. */
  lemma SameKeywords(a: seq<Token>, b: seq<Token>, m: nat)
    requires AgreeUpTo(a, b, m)
    ensures forall i, word :: 0 <= i <= m ==> (IsKeyword(a[i], word) <==> IsKeyword(b[i], word))
  {
  }

  lemma InsertIsLocal(a: seq<Token>, b: seq<Token>, m: nat)
    requires Terminated(a) && Terminated(b) && AgreeUpTo(a, b, m)
    requires if ParseInsert(a).Parsed? then ParseInsert(a).next <= m + 1 else ParseInsert(a).at <= m
    ensures ParseInsert(b) == ParseInsert(a)
  {
    hide ParseParens, IsKeyword, Keyword;
    TestsMean(a);
    SameKeywords(a, b, m);
    if IsKeyword(a[0], "INSERT") && IsKeyword(a[1], "INTO") && a[2].kind == Identifier {
      ParensLookAhead(a, 3, Identifiers, COLUMNS_OPEN, COLUMNS_CLOSE);
      var first := ParseParens(a, 3, Identifiers, COLUMNS_OPEN, COLUMNS_CLOSE);
      if first.Parsed? && IsKeyword(a[first.next], "VALUES") {
        ParensLookAhead(a, first.next + 1, Values, VALUES_OPEN, VALUES_CLOSE);
        ParensAreLocal(a, b, 3, Identifiers, COLUMNS_OPEN, COLUMNS_CLOSE, m);
        ParensAreLocal(a, b, first.next + 1, Values, VALUES_OPEN, VALUES_CLOSE, m);
      } else {
        ParensAreLocal(a, b, 3, Identifiers, COLUMNS_OPEN, COLUMNS_CLOSE, m);
      }
    }
  }

  lemma ParensLookAhead(tokens: seq<Token>, i: nat, what: ListOf, opening: string, closing: string)
    requires Terminated(tokens) && i < |tokens|
    ensures i <= Seen(ParseParens(tokens, i, what, opening, closing))
  {
    hide ParseList;
    if tokens[i].kind == LeftParen {
      ListLooksAhead(tokens, i + 1, what);
    }
  }

  lemma ColumnsAreLocal(a: seq<Token>, b: seq<Token>, m: nat)
    requires Terminated(a) && Terminated(b) && |a| > 1 && |b| > 1 && AgreeUpTo(a, b, m)
    requires Seen(ParseColumns(a)) <= m
    ensures 1 <= m && ParseColumns(b) == ParseColumns(a)
  {
    hide ParseList;
    if a[1].kind != Star {
      ListLooksAhead(a, 1, Identifiers);
      ListIsLocal(a, b, 1, Identifiers, m);
    }
  }

  lemma WhereIsLocal(a: seq<Token>, b: seq<Token>, i: nat, m: nat)
    requires Terminated(a) && Terminated(b) && i <= m && AgreeUpTo(a, b, m) && Seen(ParseWhere(a, i)) <= m
    ensures ParseWhere(b, i) == ParseWhere(a, i)
  {
    hide IsKeyword, Keyword;
    TestsMean(a);
    SameKeywords(a, b, m);
  }

  lemma SelectIsLocal(a: seq<Token>, b: seq<Token>, m: nat)
    requires Terminated(a) && Terminated(b) && AgreeUpTo(a, b, m) && Seen(ParseSelect(a)) <= m
    ensures ParseSelect(b) == ParseSelect(a)
  {
    hide ParseColumns, ParseWhere, IsKeyword, Keyword;
    TestsMean(a);
    TestsMean(b);
    SameKeywords(a, b, m);
    if IsKeyword(a[0], "SELECT") {
      SelectLooksAhead(a);
      ColumnsAreLocal(a, b, m);
      var r := ParseColumns(a);
      if r.Parsed? && IsKeyword(a[r.next], "FROM") && a[r.next + 1].kind == Identifier {
        WhereIsLocal(a, b, r.next + 2, m);
      }
    }
  }

  /** Each part of a SELECT is looked at behind the part before it. */
  lemma SelectLooksAhead(tokens: seq<Token>)
    requires Terminated(tokens) && IsKeyword(tokens[0], "SELECT")
    ensures |tokens| > 1
    ensures var r := ParseColumns(tokens);
      && Seen(r) <= Seen(ParseSelect(tokens))
      && (r.Parsed? && IsKeyword(tokens[r.next], "FROM") && tokens[r.next + 1].kind == Identifier ==>
            && r.next + 2 <= Seen(ParseSelect(tokens))
            && Seen(ParseWhere(tokens, r.next + 2)) <= Seen(ParseSelect(tokens)))
  {
    hide ParseColumns, IsKeyword, Keyword;
    TestsMean(tokens);
  }

  /**
    A refusal is final at the token it blames: whatever follows that token, the answer
    is the same refusal, so no statement begins with the tokens up to it.
  */
  lemma RefusalIsLocal(a: seq<Token>, b: seq<Token>, statement: Statement)
    requires Terminated(a) && Terminated(b) && ParseStatement(a).Refused? && AgreeUpTo(a, b, ParseStatement(a).at)
    ensures ParseStatement(b) == ParseStatement(a) && !Spells(b, statement)
  {
    hide ParseInsert, ParseSelect, IsKeyword, Spells;
    var m := ParseStatement(a).at;
    SameKeywords(a, b, m);
    if IsKeyword(a[0], "INSERT") {
      InsertIsLocal(a, b, m);
    } else if IsKeyword(a[0], "SELECT") {
      SelectIsLocal(a, b, m);
    }
    AcceptsExactlyTheGrammar(b, statement);
  }

  // ----- Lexer and parser together -------------------------------------------

  lemma {:induction false} TokensOfAt(pieces: seq<Piece>, position: nat)
    ensures var tokens := TokensOf(pieces, position);
      && |tokens| == |pieces| + 1 && tokens[|pieces|].kind == End
      && forall i :: 0 <= i < |pieces| ==> tokens[i].kind == pieces[i].kind && tokens[i].text == pieces[i].text
    decreases |pieces|
  {
    if pieces != [] {
      TokensOfAt(pieces[1..], position + |Spelling(pieces[0]) + pieces[0].blank|);
    }
  }

  lemma LayoutTerminates(pieces: seq<Piece>, position: nat)
    requires Layout(pieces)
    ensures Terminated(TokensOf(pieces, position))
  {
  }

  lemma LexTerminates(s: string)
    requires Lex(s, 0).Tokens?
    ensures Terminated(Lex(s, 0).tokens)
  {
    hide Lex, TokensOf;
    var lead, pieces, closing := AcceptedIsLayout(s, 0);
    LayoutTerminates(pieces, |lead|);
  }

  /** The statement of an SQL text, if lexer and parser accept it. */
  function Read(s: string): Option<Statement> {
    var lexed := Lex(s, 0);
    if !lexed.Tokens? then None
    else
      LexTerminates(s);
      var r := ParseStatement(lexed.tokens);
      if r.Parsed? then Some(r.value) else None
  }

  /** The first two stages of `execute_sql_text`. */
  method ReadSql(s: string) returns (r: Option<Statement>)
    ensures r == Read(s)
  {
    hide Lex, ParseStatement;
    var lexer := new Lexer(s);
    var lexed := lexer.LexSql();
    if !lexed.Tokens? {
      return None;
    }
    LexTerminates(s);
    var parser := new Parser(lexed.tokens);
    var parsed := parser.Parse();
    r := if parsed.Parsed? then Some(parsed.value) else None;
  }

  /** The text is a layout of some spelling of the statement. */
  ghost predicate Writes(s: string, statement: Statement) {
    exists lead, pieces ::
      IsBlank(lead) && Layout(pieces) && s == lead + TextOf(pieces) && Spells(TokensOf(pieces, |lead|), statement)
  }

  lemma WrittenIsRead(lead: string, pieces: seq<Piece>, statement: Statement)
    requires IsBlank(lead) && Layout(pieces) && Spells(TokensOf(pieces, |lead|), statement)
    ensures Read(lead + TextOf(pieces)) == Some(statement)
  {
    hide Lex, Spells, TextOf, TokensOf, ParseStatement, Layout;
    SkipBlanks(lead, TextOf(pieces), 0);
    LexUndoesLayout(pieces, |lead|);
    LayoutTerminates(pieces, |lead|);
    AcceptsExactlyTheGrammar(TokensOf(pieces, |lead|), statement);
  }

  lemma ReadIsWritten(s: string, statement: Statement)
    requires Read(s) == Some(statement)
    ensures Writes(s, statement)
  {
    hide Lex, TextOf, TokensOf, ParseStatement, Layout, SameWords, Spells;
    LexTerminates(s);
    var tokens := Lex(s, 0).tokens;
    var lead, pieces, closing := AcceptedIsLayout(s, 0);
    AcceptsExactlyTheGrammar(tokens, statement);
    SpellsSameWords(tokens, TokensOf(pieces, |lead|), statement);
    LastIsSemicolon(pieces, |lead|, statement);
    assert s + "" == s;
  }

  lemma LastIsSemicolon(pieces: seq<Piece>, position: nat, statement: Statement)
    requires Spells(TokensOf(pieces, position), statement)
    ensures pieces != [] && pieces[|pieces| - 1].kind == Semicolon
  {
    hide TokensOf;
    TokensOfAt(pieces, position);
  }

  lemma SpellsSameList(a: seq<Token>, b: seq<Token>, i: nat, items: seq<string>, what: ListOf)
    requires SameWords(a, b) && SpellsList(a, i, items, what)
    ensures SpellsList(b, i, items, what)
  {
  }

  lemma SpellsSameWords(a: seq<Token>, b: seq<Token>, statement: Statement)
    requires SameWords(a, b) && Spells(a, statement)
    ensures Spells(b, statement)
  {
    hide SameIgnoringCase, SpellsList;
    match statement
    case Insert(insert) =>
      SpellsSameList(a, b, 4, insert.columns, Identifiers);
      SpellsSameList(a, b, 6 + 2 * |insert.columns|, insert.values, Values);
    case Select(select) =>
      if !select.selectAll {
        SpellsSameList(a, b, 1, select.columns, Identifiers);
      }
  }

  /**
    What the front end reads: a statement comes out of a text if and only if the
    text is a layout of a spelling of it. Unclosed literals never get this far.
  */
  lemma ReadsExactlyWhatIsWritten(s: string, statement: Statement)
    ensures Read(s) == Some(statement) <==> Writes(s, statement)
  {
    if Read(s) == Some(statement) {
      ReadIsWritten(s, statement);
    }
    if Writes(s, statement) {
      var lead, pieces :|
        IsBlank(lead) && Layout(pieces) && s == lead + TextOf(pieces) && Spells(TokensOf(pieces, |lead|), statement);
      WrittenIsRead(lead, pieces, statement);
    }
  }

  // ----- Printing ------------------------------------------------------------

  predicate IsIdentifier(s: string) {
    IsWord(s) && !IsDigit(s[0])
  }

  predicate AllIdentifiers(names: seq<string>) {
    names != [] && forall i :: 0 <= i < |names| ==> IsIdentifier(names[i])
  }

  /** Statements that SQL text can express; the values are arbitrary. */
  predicate Printable(statement: Statement) {
    match statement
    case Insert(insert) => IsIdentifier(insert.tableName) && AllIdentifiers(insert.columns) && insert.values != []
    case Select(select) =>
      && IsIdentifier(select.tableName)
      && (if select.selectAll then select.columns == [] else AllIdentifiers(select.columns))
      && (select.where.Some? ==> IsIdentifier(select.where.value.column))
  }

  /**
    A way to print: the values that stand bare, the others being literals, and how
    each keyword is spelled.
  */
  datatype Style = Style(bare: set<string>, cased: string -> string)

  const KEYWORDS := ["INSERT", "INTO", "VALUES", "SELECT", "FROM", "WHERE"]

  /** Values that stand bare are words; keywords are spelled in any mix of cases. */
  ghost predicate Fair(style: Style) {
    && (forall value :: value in style.bare ==> IsWord(value))
    && forall i :: 0 <= i < |KEYWORDS| ==> AnyCase(style.cased(KEYWORDS[i]), KEYWORDS[i])
  }

  function Word(text: string): Piece {
    Piece(Identifier, text, " ")
  }

  function Key(word: string, style: Style): Piece {
    Word(style.cased(word))
  }

  function Item(text: string, what: ListOf, style: Style): Piece {
    if what.Identifiers? then Word(text)
    else if text !in style.bare then Piece(StringLiteral, text, " ")
    else if text != "" && text[0] in DIGITS then Piece(Number, text, " ")
    else Word(text)
  }

  function Symbol(kind: TokenType, c: char): Piece {
    Piece(kind, [c], " ")
  }

  function ListPieces(items: seq<string>, what: ListOf, style: Style): (pieces: seq<Piece>)
    requires items != []
    ensures |pieces| == 2 * |items| - 1
  {
    seq(2 * |items| - 1, j requires 0 <= j < 2 * |items| - 1 =>
      if j % 2 == 0 then Item(items[j / 2], what, style) else Symbol(Comma, ','))
  }

  function EndPieces(where: Option<Condition>, style: Style): seq<Piece> {
    if where.None? then [Symbol(Semicolon, ';')]
    else
      [Key("WHERE", style), Word(where.value.column), Symbol(EqualSign, '='), Item(where.value.value, Values, style),
       Symbol(Semicolon, ';')]
  }

  function InsertPieces(insert: InsertStatement, style: Style): seq<Piece>
    requires insert.columns != [] && insert.values != []
  {
    [Key("INSERT", style), Key("INTO", style), Word(insert.tableName), Symbol(LeftParen, '(')] +
    ListPieces(insert.columns, Identifiers, style) +
    [Symbol(RightParen, ')'), Key("VALUES", style), Symbol(LeftParen, '(')] +
    ListPieces(insert.values, Values, style) +
    [Symbol(RightParen, ')'), Symbol(Semicolon, ';')]
  }

  function SelectPieces(select: SelectStatement, style: Style): seq<Piece>
    requires select.selectAll || select.columns != []
  {
    [Key("SELECT", style)] +
    (if select.selectAll then [Symbol(Star, '*')] else ListPieces(select.columns, Identifiers, style)) +
    [Key("FROM", style), Word(select.tableName)] + EndPieces(select.where, style)
  }

  function PiecesOf(statement: Statement, style: Style): seq<Piece>
    requires Printable(statement)
  {
    match statement
    case Insert(insert) => InsertPieces(insert, style)
    case Select(select) => SelectPieces(select, style)
  }

  /** The SQL text of a statement in some style. */
  function Print(statement: Statement, style: Style): string
    requires Printable(statement)
  {
    TextOf(PiecesOf(statement, style))
  }

  /** Blanks behind every piece: what counts is that each piece is valid. */
  predicate Spaced(pieces: seq<Piece>) {
    forall i :: 0 <= i < |pieces| ==> ValidPiece(pieces[i]) && pieces[i].blank != ""
  }

  lemma ItemSpaced(text: string, what: ListOf, style: Style)
    requires Fair(style) && (what.Identifiers? ==> IsIdentifier(text))
    ensures Spaced([Item(text, what, style)])
  {
    if text != "" {
      CharacterClasses(text[0]);
    }
  }

  lemma WordSpaced(text: string)
    requires IsIdentifier(text)
    ensures Spaced([Word(text)])
  {
  }

  lemma SymbolSpaced(kind: TokenType, c: char)
    requires SymbolKind(c) == kind != End
    ensures Spaced([Symbol(kind, c)])
  {
  }

  lemma ListSpaced(items: seq<string>, what: ListOf, style: Style)
    requires Fair(style) && items != [] && (what.Identifiers? ==> AllIdentifiers(items))
    ensures Spaced(ListPieces(items, what, style))
  {
    hide ValidPiece, IsIdentifier, Spaced;
    var pieces := ListPieces(items, what, style);
    forall j | 0 <= j < |pieces| ensures Spaced([pieces[j]]) {
      if j % 2 == 0 {
        ItemSpaced(items[j / 2], what, style);
      } else {
        SymbolSpaced(Comma, ',');
      }
    }
    EachSpaced(pieces);
  }

  lemma EachSpaced(pieces: seq<Piece>)
    requires forall i :: 0 <= i < |pieces| ==> Spaced([pieces[i]])
    ensures Spaced(pieces)
  {
    hide ValidPiece;
    forall i | 0 <= i < |pieces| ensures ValidPiece(pieces[i]) && pieces[i].blank != "" {
      assert Spaced([pieces[i]]) && [pieces[i]][0] == pieces[i];
    }
  }

  lemma SpacedTogether(a: seq<Piece>, b: seq<Piece>, c: seq<Piece>, d: seq<Piece>, e: seq<Piece>)
    requires Spaced(a) && Spaced(b) && Spaced(c) && Spaced(d) && Spaced(e)
    ensures Layout(a + b + c + d + e)
  {
  }

  lemma KeywordSpaced(text: string, word: string)
    requires AnyCase(text, word) && word != "" && forall i :: 0 <= i < |word| ==> 'A' <= word[i] <= 'Z'
    ensures IsIdentifier(text) && Spaced([Word(text)])
  {
    forall i | 0 <= i < |text| ensures ContinuesWord(text[i]) && !IsDigit(text[i]) {
      CasedLetter(text[i], word[i]);
    }
  }

  lemma CasedLetter(c: char, large: char)
    requires SameLetter(c, large) && 'A' <= large <= 'Z'
    ensures IsLetter(c)
  {
    hide TwoCases;
    if c != large {
      var k: nat :| k < 26 && TwoCases(c, large, k);
      TwoCasesMean(c, large, k);
    }
  }

  lemma FixedPiecesSpaced(style: Style)
    requires Fair(style)
    ensures Spaced([Key("INSERT", style)]) && Spaced([Key("INTO", style)])
    ensures Spaced([Key("VALUES", style)]) && Spaced([Key("SELECT", style)])
    ensures Spaced([Key("FROM", style)]) && Spaced([Key("WHERE", style)])
    ensures Spaced([Symbol(LeftParen, '(')]) && Spaced([Symbol(RightParen, ')')]) && Spaced([Symbol(Semicolon, ';')])
    ensures Spaced([Symbol(Star, '*')]) && Spaced([Symbol(EqualSign, '=')])
  {
    hide AnyCase, IsIdentifier, Word;
    KeywordsAreSpelled(style);
    KeywordSpaced(style.cased("INSERT"), "INSERT");
    KeywordSpaced(style.cased("INTO"), "INTO");
    KeywordSpaced(style.cased("VALUES"), "VALUES");
    KeywordSpaced(style.cased("SELECT"), "SELECT");
    KeywordSpaced(style.cased("FROM"), "FROM");
    KeywordSpaced(style.cased("WHERE"), "WHERE");
  }

  lemma PrintedIsLayout(statement: Statement, style: Style)
    requires Printable(statement) && Fair(style)
    ensures Layout(PiecesOf(statement, style))
  {
    hide ValidPiece, ListPieces, Item, Word, Symbol, Spaced, Layout, IsIdentifier, AnyCase;
    FixedPiecesSpaced(style);
    match statement
    case Insert(insert) =>
      ListSpaced(insert.columns, Identifiers, style);
      ListSpaced(insert.values, Values, style);
      WordSpaced(insert.tableName);
      EachSpaced([Key("INSERT", style), Key("INTO", style), Word(insert.tableName), Symbol(LeftParen, '(')]);
      EachSpaced([Symbol(RightParen, ')'), Key("VALUES", style), Symbol(LeftParen, '(')]);
      EachSpaced([Symbol(RightParen, ')'), Symbol(Semicolon, ';')]);
      SpacedTogether([Key("INSERT", style), Key("INTO", style), Word(insert.tableName), Symbol(LeftParen, '(')],
                     ListPieces(insert.columns, Identifiers, style),
                     [Symbol(RightParen, ')'), Key("VALUES", style), Symbol(LeftParen, '(')],
                     ListPieces(insert.values, Values, style), [Symbol(RightParen, ')'), Symbol(Semicolon, ';')]);
    case Select(select) =>
      if !select.selectAll {
        ListSpaced(select.columns, Identifiers, style);
      }
      WordSpaced(select.tableName);
      EndSpaced(select.where, style);
      EachSpaced([Key("FROM", style), Word(select.tableName)]);
      EachSpaced([]);
      SpacedTogether([Key("SELECT", style)],
                     if select.selectAll then [Symbol(Star, '*')] else ListPieces(select.columns, Identifiers, style),
                     [Key("FROM", style), Word(select.tableName)], EndPieces(select.where, style), []);
      assert SelectPieces(select, style) + [] == SelectPieces(select, style);
  }

  lemma EndSpaced(where: Option<Condition>, style: Style)
    requires Fair(style)
    requires where.Some? ==> IsIdentifier(where.value.column)
    ensures Spaced(EndPieces(where, style))
  {
    hide ValidPiece, Item, Symbol, Word, Spaced, IsIdentifier, AnyCase;
    FixedPiecesSpaced(style);
    if where.Some? {
      WordSpaced(where.value.column);
      ItemSpaced(where.value.value, Values, style);
    }
    EachSpaced(EndPieces(where, style));
  }

  lemma ListLength(items: seq<string>, what: ListOf, style: Style)
    requires items != []
    ensures |ListPieces(items, what, style)| == 2 * |items| - 1
  {
  }

  lemma ListPieceAt(items: seq<string>, what: ListOf, style: Style, k: nat)
    requires k < |items|
    ensures ListPieces(items, what, style)[2 * k] == Item(items[k], what, style)
    ensures k < |items| - 1 ==> ListPieces(items, what, style)[2 * k + 1] == Symbol(Comma, ',')
  {
    hide Item, Symbol;
    assert (2 * k) % 2 == 0 && (2 * k) / 2 == k && (2 * k + 1) % 2 == 1;
  }

  lemma ListSpells(pieces: seq<Piece>, position: nat, i: nat, items: seq<string>, what: ListOf, style: Style)
    requires items != [] && i + 2 * |items| - 1 < |pieces|
    requires pieces[i..i + 2 * |items| - 1] == ListPieces(items, what, style)
    ensures SpellsList(TokensOf(pieces, position), i, items, what)
  {
    hide TokensOf, ListPieces, Item, ItemKind;
    var tokens, list := TokensOf(pieces, position), ListPieces(items, what, style);
    TokensOfAt(pieces, position);
    forall k | 0 <= k < |items|
      ensures ItemKind(tokens[i + 2 * k].kind, what) && tokens[i + 2 * k].text == items[k]
      ensures k < |items| - 1 ==> tokens[i + 2 * k + 1].kind == Comma
    {
      ListPieceAt(items, what, style, k);
      ItemHasKind(items[k], what, style);
      assert pieces[i + 2 * k] == list[2 * k];
      assert k < |items| - 1 ==> pieces[i + 2 * k + 1] == list[2 * k + 1];
    }
  }

  lemma KeywordsAreSpelled(style: Style)
    requires Fair(style)
    ensures AnyCase(style.cased("INSERT"), "INSERT") && AnyCase(style.cased("INTO"), "INTO")
    ensures AnyCase(style.cased("VALUES"), "VALUES") && AnyCase(style.cased("SELECT"), "SELECT")
    ensures AnyCase(style.cased("FROM"), "FROM") && AnyCase(style.cased("WHERE"), "WHERE")
  {
    hide AnyCase;
    assert KEYWORDS[0] == "INSERT" && KEYWORDS[1] == "INTO" && KEYWORDS[2] == "VALUES";
    assert KEYWORDS[3] == "SELECT" && KEYWORDS[4] == "FROM" && KEYWORDS[5] == "WHERE";
  }

  lemma PrintedInsertLists(insert: InsertStatement, style: Style)
    requires Printable(Insert(insert))
    ensures var n, tokens := 3 + 2 * |insert.columns|, TokensOf(InsertPieces(insert, style), 0);
      SpellsList(tokens, 4, insert.columns, Identifiers) && SpellsList(tokens, n + 3, insert.values, Values)
  {
    hide TokensOf, SpellsList, ListPieces, IsIdentifier, Item, Symbol;
    ListLength(insert.columns, Identifiers, style);
    ListLength(insert.values, Values, style);
    var pieces := InsertPieces(insert, style);
    ThreeParts(pieces, pieces[..4], ListPieces(insert.columns, Identifiers, style), pieces[3 + 2 * |insert.columns|..]);
    ThreeParts(pieces, pieces[..6 + 2 * |insert.columns|], ListPieces(insert.values, Values, style),
               [Symbol(RightParen, ')'), Symbol(Semicolon, ';')]);
    ListSpells(pieces, 0, 4, insert.columns, Identifiers, style);
    ListSpells(pieces, 0, 6 + 2 * |insert.columns|, insert.values, Values, style);
  }

  lemma ThreeParts<T>(all: seq<T>, start: seq<T>, middle: seq<T>, end: seq<T>)
    requires all == start + middle + end
    ensures all[|start|..|start| + |middle|] == middle
  {
  }

  lemma PrintedInsertSpells(insert: InsertStatement, style: Style)
    requires Printable(Insert(insert)) && Fair(style)
    ensures SpellsInsert(TokensOf(InsertPieces(insert, style), 0), insert)
  {
    hide TokensOf, SpellsList, AnyCase, ListPieces, IsIdentifier;
    PrintedInsertLists(insert, style);
    KeywordsAreSpelled(style);
    ListLength(insert.columns, Identifiers, style);
    ListLength(insert.values, Values, style);
    TokensOfAt(InsertPieces(insert, style), 0);
  }

  lemma ItemHasKind(text: string, what: ListOf, style: Style)
    ensures var piece := Item(text, what, style); ItemKind(piece.kind, what) && piece.text == text
  {
  }

  lemma At<T>(all: seq<T>, i: nat, end: seq<T>, j: nat)
    requires i <= |all| && all[i..] == end && j < |end|
    ensures |all| == i + |end| && all[i + j] == end[j]
  {
  }

  lemma EndPiecesAt(pieces: seq<Piece>, i: nat, where: Option<Condition>, style: Style)
    requires i <= |pieces| && pieces[i..] == EndPieces(where, style)
    ensures match where
      case None => |pieces| == i + 1 && pieces[i] == Symbol(Semicolon, ';')
      case Some(c) =>
        && |pieces| == i + 5 && pieces[i] == Key("WHERE", style) && pieces[i + 1] == Word(c.column)
        && pieces[i + 2] == Symbol(EqualSign, '=') && pieces[i + 3] == Item(c.value, Values, style)
        && pieces[i + 4] == Symbol(Semicolon, ';')
  {
    hide Item, Symbol, Word;
    var end := EndPieces(where, style);
    At(pieces, i, end, 0);
    if where.Some? {
      At(pieces, i, end, 1);
      At(pieces, i, end, 2);
      At(pieces, i, end, 3);
      At(pieces, i, end, 4);
    }
  }

  lemma PrintedWhereSpells(pieces: seq<Piece>, i: nat, where: Option<Condition>, style: Style)
    requires Fair(style) && i <= |pieces| && pieces[i..] == EndPieces(where, style)
    ensures SpellsWhere(TokensOf(pieces, 0), i, where)
  {
    hide TokensOf, AnyCase, EndPieces, Item, ItemKind, Fair, SpellsWhere;
    TokensOfAt(pieces, 0);
    EndPiecesAt(pieces, i, where, style);
    if where.Some? {
      KeywordsAreSpelled(style);
      ItemHasKind(where.value.value, Values, style);
      ConditionSpells(TokensOf(pieces, 0), i, where.value);
    } else {
      NoConditionSpells(TokensOf(pieces, 0), i);
    }
  }

  lemma NoConditionSpells(tokens: seq<Token>, i: nat)
    requires SpellsEnd(tokens, i)
    ensures SpellsWhere(tokens, i, None)
  {
  }

  lemma ConditionSpells(tokens: seq<Token>, i: nat, c: Condition)
    requires SpellsEnd(tokens, i + 4) && Keyword(tokens[i], "WHERE")
    requires tokens[i + 1].kind == Identifier && tokens[i + 1].text == c.column
    requires tokens[i + 2].kind == EqualSign && ItemKind(tokens[i + 3].kind, Values) && tokens[i + 3].text == c.value
    ensures SpellsWhere(tokens, i, Some(c))
  {
  }

  lemma PrintedSelectSpells(select: SelectStatement, style: Style)
    requires Printable(Select(select)) && Fair(style)
    ensures SpellsSelect(TokensOf(SelectPieces(select, style), 0), select)
  {
    hide TokensOf, SpellsList, SpellsWhere, AnyCase, EndPieces, IsWord;
    KeywordsAreSpelled(style);
    var pieces := SelectPieces(select, style);
    var columns := if select.selectAll then [Symbol(Star, '*')] else ListPieces(select.columns, Identifiers, style);
    var n := 1 + |columns|;
    var end := EndPieces(select.where, style);
    assert pieces == [Key("SELECT", style)] + columns + [Key("FROM", style), Word(select.tableName)] + end;
    Parts(pieces, Key("SELECT", style), columns, Key("FROM", style), Word(select.tableName), end);
    PrintedWhereSpells(pieces, n + 2, select.where, style);
    if !select.selectAll {
      ListSpells(pieces, 0, 1, select.columns, Identifiers, style);
    }
    TokensOfAt(pieces, 0);
  }

  lemma Parts<T>(all: seq<T>, first: T, middle: seq<T>, second: T, third: T, end: seq<T>)
    requires all == [first] + middle + [second, third] + end && middle != []
    ensures var n := 1 + |middle|;
      && n + 2 <= |all| && all[0] == first && all[1..n] == middle && all[1] == middle[0]
      && all[n] == second && all[n + 1] == third && all[n + 2..] == end
  {
  }

  /**
    Printing and reading back: any names, keywords included, and any values whatsoever,
    as literals or, where they are words, as bare numbers and names; keywords in any case.
  */
  lemma PrintedIsRead(statement: Statement, style: Style)
    requires Printable(statement) && Fair(style)
    ensures Read(Print(statement, style)) == Some(statement)
  {
    hide TokensOf, TextOf, SpellsInsert, SpellsSelect, InsertPieces, SelectPieces, Layout, Read;
    PrintedIsLayout(statement, style);
    match statement {
      case Insert(insert) => PrintedInsertSpells(insert, style);
      case Select(select) => PrintedSelectSpells(select, style);
    }
    WrittenIsRead("", PiecesOf(statement, style), statement);
    assert "" + Print(statement, style) == Print(statement, style);
  }

  /** Names with underscores, digits and bytes of UTF-8 sequences are names; numbers are words. */
  lemma NamesByHand()
    ensures IsIdentifier("student_number") && IsIdentifier("_tmp2") && IsIdentifier("\U{EA}\U{B0}\U{80}")
    ensures IsWord("2") && IsWord("25_000") && !IsIdentifier("2")
  {
  }

  predicate NamesAreIdentifiers(tokens: seq<Token>) {
    forall i :: 0 <= i < |tokens| && tokens[i].kind == Identifier ==> IsIdentifier(tokens[i].text)
  }

  /** Only printable statements are ever read, so printing loses none of them. */
  lemma ReadIsPrintable(s: string)
    requires Read(s).Some?
    ensures Printable(Read(s).value)
  {
    hide Read, Spells, TextOf, TokensOf, Layout;
    var statement := Read(s).value;
    ReadIsWritten(s, statement);
    var lead, pieces :|
      IsBlank(lead) && Layout(pieces) && s == lead + TextOf(pieces) && Spells(TokensOf(pieces, |lead|), statement);
    LayoutIdentifiers(pieces, |lead|);
    SpellsPrintable(TokensOf(pieces, |lead|), statement);
  }

  lemma LayoutIdentifiers(pieces: seq<Piece>, position: nat)
    requires Layout(pieces)
    ensures NamesAreIdentifiers(TokensOf(pieces, position))
  {
  }

  lemma SpellsPrintable(tokens: seq<Token>, statement: Statement)
    requires Spells(tokens, statement) && NamesAreIdentifiers(tokens)
    ensures Printable(statement)
  {
  }
}
