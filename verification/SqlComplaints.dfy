/**
  What src/sql/parser.c complains about, and at which token: the first one that cannot
  stand where the grammar of `SqlRoundTrip` has got to.
*/
module SqlComplaints {
  import opened SqlLexer
  import opened SqlParser
  import opened SqlRoundTrip

  /** From token `i` on stand `count` items with commas between them. */
  predicate ListStands(tokens: seq<Token>, i: nat, count: nat, what: ListOf) {
    && count > 0 && i + 2 * count - 1 < |tokens|
    && (forall k :: 0 <= k < count ==> ItemKind(tokens[i + 2 * k].kind, what))
    && forall k :: 0 <= k < count - 1 ==> tokens[i + 2 * k + 1].kind == Comma
  }

  /** An item is missing at the start of a list or behind a comma, `count` items having been read. */
  predicate ItemMissing(tokens: seq<Token>, i: nat, count: nat, what: ListOf) {
    && i + 2 * count < |tokens| && !ItemKind(tokens[i + 2 * count].kind, what)
    && (count > 0 ==> ListStands(tokens, i, count, what) && tokens[i + 2 * count - 1].kind == Comma)
  }

  lemma ListStandsIsParsed(tokens: seq<Token>, i: nat, count: nat, what: ListOf)
    requires Terminated(tokens) && ListStands(tokens, i, count, what) && tokens[i + 2 * count - 1].kind != Comma
    ensures ParseList(tokens, i, what).Parsed? && ParseList(tokens, i, what).next == i + 2 * count - 1
  {
    hide ItemKind, ParseList;
    var items := seq(count, k requires 0 <= k < count => tokens[i + 2 * k].text);
    ListIsAccepted(tokens, i, items, what);
  }

  lemma {:induction false} ItemMissingIsTold(tokens: seq<Token>, i: nat, count: nat, what: ListOf)
    requires Terminated(tokens) && ItemMissing(tokens, i, count, what)
    ensures ParseList(tokens, i, what) == Refused(if what.Values? then "SQL value" else "identifier", i + 2 * count)
    decreases count
  {
    hide IsItem, ItemKind;
    TestsMean(tokens);
    if count > 0 {
      assert ItemKind(tokens[i + 2 * 0].kind, what);
      if count > 1 {
        assert tokens[i + 2 * 0 + 1].kind == Comma;
        ListStandsBehind(tokens, i, count, what);
      }
      ItemMissingIsTold(tokens, i + 2, count - 1, what);
    }
  }

  lemma ListStandsBehind(tokens: seq<Token>, i: nat, count: nat, what: ListOf)
    requires ListStands(tokens, i, count, what) && count > 1
    ensures ListStands(tokens, i + 2, count - 1, what)
  {
    hide ItemKind;
    forall k | 0 <= k < count - 1 ensures ItemKind(tokens[i + 2 + 2 * k].kind, what) {
      assert tokens[i + 2 * (k + 1)] == tokens[i + 2 + 2 * k];
    }
    forall k | 0 <= k < count - 2 ensures tokens[i + 2 + 2 * k + 1].kind == Comma {
      assert tokens[i + 2 * (k + 1) + 1] == tokens[i + 2 + 2 * k + 1];
    }
  }

  /** A list in parentheses from token `i` on that is complete. */
  predicate ParensStand(tokens: seq<Token>, i: nat, count: nat, what: ListOf) {
    && i + 2 * count + 1 < |tokens| && tokens[i].kind == LeftParen && ListStands(tokens, i + 1, count, what)
    && tokens[i + 2 * count].kind == RightParen
  }

  /** The complaint about a list in parentheses, and the token it is about. */
  lemma ParensComplain(tokens: seq<Token>, i: nat, count: nat, what: ListOf, opening: string, closing: string)
    requires Terminated(tokens) && i < |tokens|
    ensures var r := ParseParens(tokens, i, what, opening, closing);
      && (tokens[i].kind != LeftParen ==> r == Refused(opening, i))
      && (tokens[i].kind == LeftParen && ItemMissing(tokens, i + 1, count, what) ==>
            r == Refused(if what.Values? then "SQL value" else "identifier", i + 1 + 2 * count))
      && (tokens[i].kind == LeftParen && ListStands(tokens, i + 1, count, what)
          && tokens[i + 2 * count].kind !in {RightParen, Comma} ==>
            r == Refused(closing, i + 2 * count))
      && (ParensStand(tokens, i, count, what) ==> r.Parsed? && r.next == i + 2 * count + 1)
  {
    hide ParseList, ListStands, ItemMissing;
    if tokens[i].kind == LeftParen {
      if ItemMissing(tokens, i + 1, count, what) {
        ItemMissingIsTold(tokens, i + 1, count, what);
      }
      if ListStands(tokens, i + 1, count, what) {
        StandsInside(tokens, i + 1, count, what);
        if tokens[i + 2 * count].kind != Comma {
          ListStandsIsParsed(tokens, i + 1, count, what);
        }
      }
    }
  }

  lemma StandsInside(tokens: seq<Token>, i: nat, count: nat, what: ListOf)
    requires ListStands(tokens, i, count, what)
    ensures count > 0 && i + 2 * count - 1 < |tokens|
  {
  }

  /** INSERT INTO table. */
  predicate InsertHead(tokens: seq<Token>) {
    && |tokens| > 3 && Keyword(tokens[0], "INSERT") && Keyword(tokens[1], "INTO") && tokens[2].kind == Identifier
  }

  /** INSERT INTO table (columns) VALUES, with `nc` columns. */
  predicate InsertColumns(tokens: seq<Token>, nc: nat) {
    && InsertHead(tokens) && ParensStand(tokens, 3, nc, Identifiers) && 2 * nc + 5 < |tokens|
    && Keyword(tokens[2 * nc + 4], "VALUES")
  }

  /** The complaint about an INSERT at the first token that does not fit, here up to its table name. */
  lemma InsertHeadComplains(tokens: seq<Token>)
    requires Terminated(tokens)
    ensures !Keyword(tokens[0], "INSERT") && !Keyword(tokens[0], "SELECT") ==>
      ParseStatement(tokens) == Refused("only INSERT and SELECT are supported", 0)
    ensures Keyword(tokens[0], "INSERT") ==>
      && |tokens| > 1
      && (!Keyword(tokens[1], "INTO") ==> ParseStatement(tokens) == Refused("keyword INTO", 1))
      && (Keyword(tokens[1], "INTO") ==>
            |tokens| > 2 && (tokens[2].kind != Identifier ==> ParseStatement(tokens) == Refused("identifier", 2)))
  {
    hide IsKeyword, Keyword, ParseParens, ParseSelect;
    TestsMean(tokens);
  }

  /** The same up to VALUES, where `nc` columns are read. */
  lemma InsertColumnsComplain(tokens: seq<Token>, nc: nat)
    requires Terminated(tokens) && InsertHead(tokens)
    ensures var r := ParseStatement(tokens);
      && (tokens[3].kind != LeftParen ==> r == Refused("expected '(' after table name", 3))
      && (tokens[3].kind == LeftParen && ItemMissing(tokens, 4, nc, Identifiers) ==>
            r == Refused("identifier", 4 + 2 * nc))
      && (tokens[3].kind == LeftParen && ListStands(tokens, 4, nc, Identifiers)
          && tokens[2 * nc + 3].kind !in {RightParen, Comma} ==>
            r == Refused("expected ')' after column list", 2 * nc + 3))
      && (ParensStand(tokens, 3, nc, Identifiers) && !Keyword(tokens[2 * nc + 4], "VALUES") ==>
            r == Refused("keyword VALUES", 2 * nc + 4))
  {
    hide IsKeyword, Keyword, ParseParens, ParseSelect, ItemMissing, ListStands, ParensStand;
    TestsMean(tokens);
    ParensComplain(tokens, 3, nc, Identifiers, COLUMNS_OPEN, COLUMNS_CLOSE);
    ParensInside(tokens, 3, nc, Identifiers);
  }

  /** The same behind VALUES, where `nv` values are read. */
  lemma InsertValuesComplain(tokens: seq<Token>, nc: nat, nv: nat)
    requires Terminated(tokens) && InsertColumns(tokens, nc)
    ensures var r, i := ParseStatement(tokens), 2 * nc + 5;
      && (tokens[i].kind != LeftParen ==> r == Refused("expected '(' after VALUES", i))
      && (tokens[i].kind == LeftParen && ItemMissing(tokens, i + 1, nv, Values) ==>
            r == Refused("SQL value", i + 1 + 2 * nv))
      && (tokens[i].kind == LeftParen && ListStands(tokens, i + 1, nv, Values)
          && tokens[i + 2 * nv].kind !in {RightParen, Comma} ==>
            r == Refused("expected ')' after value list", i + 2 * nv))
      && (ParensStand(tokens, i, nv, Values) && tokens[i + 2 * nv + 1].kind != Semicolon ==>
            r == Refused("expected ';' at end of SQL statement", i + 2 * nv + 1))
      && (ParensStand(tokens, i, nv, Values) && tokens[i + 2 * nv + 1].kind == Semicolon
          && |tokens| > i + 2 * nv + 3 ==>
            r == Refused("unexpected tokens after SQL statement", i + 2 * nv + 2))
  {
    hide ParseParens, ParseStatement, InsertColumns, ItemMissing, ListStands, ParensStand;
    ValuesDecide(tokens, nc);
    ParensComplain(tokens, 2 * nc + 5, nv, Values, VALUES_OPEN, VALUES_CLOSE);
    ParensInside(tokens, 2 * nc + 5, nv, Values);
  }

  /** Once the columns are read, the rest of an INSERT is its values and its end. */
  lemma ValuesDecide(tokens: seq<Token>, nc: nat)
    requires Terminated(tokens) && InsertColumns(tokens, nc)
    ensures 2 * nc + 5 < |tokens|
    ensures var r, values := ParseStatement(tokens), ParseParens(tokens, 2 * nc + 5, Values, VALUES_OPEN, VALUES_CLOSE);
      match values
      case Refused(expected, at) => r == Refused(expected, at)
      case Parsed(_, next) =>
        if tokens[next].kind != Semicolon then r == Refused("expected ';' at end of SQL statement", next)
        else if |tokens| > next + 2 then r == Refused("unexpected tokens after SQL statement", next + 1)
        else r.Parsed?
  {
    hide IsKeyword, Keyword, ParseParens, ParseSelect, ListStands, ParensStand;
    TestsMean(tokens);
    ParensComplain(tokens, 3, nc, Identifiers, COLUMNS_OPEN, COLUMNS_CLOSE);
    ParensInside(tokens, 3, nc, Identifiers);
  }

  lemma ParensInside(tokens: seq<Token>, i: nat, count: nat, what: ListOf)
    ensures ParensStand(tokens, i, count, what) ==> i + 2 * count + 1 < |tokens| && tokens[i].kind == LeftParen
    ensures ListStands(tokens, i + 1, count, what) ==> count > 0 && i + 2 * count < |tokens|
  {
  }

  // ----- SELECT --------------------------------------------------------------

  /** SELECT and a star, or a list of `nc` names that no comma follows; `n` is the next token. */
  predicate SelectColumns(tokens: seq<Token>, nc: nat, n: nat) {
    && |tokens| > 1 && Keyword(tokens[0], "SELECT")
    && if tokens[1].kind == Star then n == 2
       else n == 2 * nc && ListStands(tokens, 1, nc, Identifiers) && tokens[2 * nc].kind != Comma
  }

  /** SELECT columns FROM table. */
  predicate SelectHead(tokens: seq<Token>, nc: nat, n: nat) {
    && SelectColumns(tokens, nc, n) && n + 2 < |tokens|
    && Keyword(tokens[n], "FROM") && tokens[n + 1].kind == Identifier
  }

  lemma SelectColumnsParsed(tokens: seq<Token>, nc: nat, n: nat)
    requires Terminated(tokens) && SelectColumns(tokens, nc, n)
    ensures n < |tokens| && ParseColumns(tokens).Parsed? && ParseColumns(tokens).next == n
  {
    hide ParseList, ListStands, Keyword;
    if tokens[1].kind != Star {
      StandsInside(tokens, 1, nc, Identifiers);
      ListStandsIsParsed(tokens, 1, nc, Identifiers);
    }
  }

  /** The complaint about a SELECT at the first token that does not fit, here up to its table name. */
  lemma SelectHeadComplains(tokens: seq<Token>, nc: nat, n: nat)
    requires Terminated(tokens) && Keyword(tokens[0], "SELECT")
    ensures var r := ParseStatement(tokens);
      && |tokens| > 1
      && (tokens[1].kind != Star && ItemMissing(tokens, 1, nc, Identifiers) ==> r == Refused("identifier", 1 + 2 * nc))
      && (SelectColumns(tokens, nc, n) ==>
            && n < |tokens|
            && (!Keyword(tokens[n], "FROM") ==> r == Refused("keyword FROM", n))
            && (Keyword(tokens[n], "FROM") ==>
                  |tokens| > n + 1 && (tokens[n + 1].kind != Identifier ==> r == Refused("identifier", n + 1))))
  {
    hide IsKeyword, Keyword, ParseList, ParseInsert, ParseWhere, ListStands, ItemMissing;
    TestsMean(tokens);
    KeywordsDiffer(tokens[0]);
    if tokens[1].kind != Star && ItemMissing(tokens, 1, nc, Identifiers) {
      ItemMissingIsTold(tokens, 1, nc, Identifiers);
    }
    if SelectColumns(tokens, nc, n) {
      SelectColumnsParsed(tokens, nc, n);
    }
  }

  /** The same for what stands behind the table name, a condition or the end. */
  lemma SelectTailComplains(tokens: seq<Token>, nc: nat, n: nat)
    requires Terminated(tokens) && SelectHead(tokens, nc, n)
    ensures var r, i := ParseStatement(tokens), n + 2;
      if !Keyword(tokens[i], "WHERE") then
        && (tokens[i].kind != Semicolon ==> r == Refused("expected ';' at end of SQL statement", i))
        && (tokens[i].kind == Semicolon && |tokens| > i + 2 ==>
              r == Refused("unexpected tokens after SQL statement", i + 1))
      else if tokens[i + 1].kind != Identifier then r == Refused("identifier", i + 1)
      else if tokens[i + 2].kind != EqualSign then r == Refused("expected '=' in WHERE clause", i + 2)
      else if !ItemKind(tokens[i + 3].kind, Values) then r == Refused("SQL value in WHERE clause", i + 3)
      else if Keyword(tokens[i + 4], "AND") || Keyword(tokens[i + 4], "OR") then
        r == Refused("AND/OR conditions are not supported; only a single WHERE condition is allowed", i + 4)
      else
        && (tokens[i + 4].kind != Semicolon ==> r == Refused("expected ';' at end of SQL statement", i + 4))
        && (tokens[i + 4].kind == Semicolon && |tokens| > i + 6 ==>
              r == Refused("unexpected tokens after SQL statement", i + 5))
  {
    hide Keyword, ParseStatement, ParseWhere, ItemKind, SelectHead, Terminated;
    ConditionDecides(tokens, nc, n);
    ConditionAnswers(tokens, n + 2);
  }

  /** Once the table name is read, the rest of a SELECT is its condition and its end. */
  lemma ConditionDecides(tokens: seq<Token>, nc: nat, n: nat)
    requires Terminated(tokens) && SelectHead(tokens, nc, n)
    ensures n + 2 < |tokens|
    ensures var r, where := ParseStatement(tokens), ParseWhere(tokens, n + 2);
      match where
      case Refused(expected, at) => r == Refused(expected, at)
      case Parsed(_, next) =>
        if tokens[next].kind != Semicolon then r == Refused("expected ';' at end of SQL statement", next)
        else if |tokens| > next + 2 then r == Refused("unexpected tokens after SQL statement", next + 1)
        else r.Parsed?
  {
    hide IsKeyword, Keyword, ParseColumns, ParseWhere, ParseInsert, SelectColumns;
    TestsMean(tokens);
    SelectColumnsParsed(tokens, nc, n);
    SelectBegins(tokens, nc, n);
    KeywordsDiffer(tokens[0]);
  }

  lemma ConditionAnswers(tokens: seq<Token>, i: nat)
    requires Terminated(tokens) && i < |tokens|
    ensures var r := ParseWhere(tokens, i);
      if !Keyword(tokens[i], "WHERE") then r.Parsed? && r.next == i
      else if tokens[i + 1].kind != Identifier then r == Refused("identifier", i + 1)
      else if tokens[i + 2].kind != EqualSign then r == Refused("expected '=' in WHERE clause", i + 2)
      else if !ItemKind(tokens[i + 3].kind, Values) then r == Refused("SQL value in WHERE clause", i + 3)
      else if Keyword(tokens[i + 4], "AND") || Keyword(tokens[i + 4], "OR") then
        r == Refused("AND/OR conditions are not supported; only a single WHERE condition is allowed", i + 4)
      else r.Parsed? && r.next == i + 4
  {
    hide IsKeyword, Keyword;
    TestsMean(tokens);
  }

  lemma SelectBegins(tokens: seq<Token>, nc: nat, n: nat)
    requires SelectColumns(tokens, nc, n)
    ensures |tokens| > 1 && Keyword(tokens[0], "SELECT")
  {
  }
}
