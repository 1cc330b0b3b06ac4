/**
  The recursive-descent parser of src/sql/parser.c: what it makes of a token list,
  the cursor machine that does it, and the grammar it accepts.
*/
module SqlParser {
  import opened Wrappers
  import opened Text
  import opened Ast
  import opened SqlLexer

  /** The result and the index behind it, or what was expected at which token. */
  datatype Parsed<T> = Parsed(value: T, next: nat) | Refused(expected: string, at: nat)

  const KEYWORD := "keyword "
  const COLUMNS_OPEN := "expected '(' after table name"
  const COLUMNS_CLOSE := "expected ')' after column list"
  const VALUES_OPEN := "expected '(' after VALUES"
  const VALUES_CLOSE := "expected ')' after value list"
  const NO_CONNECTORS := "AND/OR conditions are not supported; only a single WHERE condition is allowed"

  /** The token list of a lexer: its last token, and no other, is `End`. */
  predicate Terminated(tokens: seq<Token>) {
    tokens != [] && forall i :: 0 <= i < |tokens| ==> (tokens[i].kind == End <==> i == |tokens| - 1)
  }

  predicate IsKeyword(token: Token, keyword: string) {
    token.kind == Identifier && SameIgnoringCase(token.text, keyword)
  }

  /** Values may be literals, numbers or bare words. */
  predicate IsValue(token: Token) {
    token.kind in {StringLiteral, Number, Identifier}
  }

  predicate IsConnector(token: Token) {
    IsKeyword(token, "AND") || IsKeyword(token, "OR")
  }

  datatype ListOf = Identifiers | Values

  predicate IsItem(token: Token, what: ListOf) {
    if what.Values? then IsValue(token) else token.kind == Identifier
  }

  function ItemName(what: ListOf): string {
    if what.Values? then "SQL value" else "identifier"
  }

  // ----- What the parser computes --------------------------------------------

  function ParseList(tokens: seq<Token>, i: nat, what: ListOf): (r: Parsed<seq<string>>)
    requires Terminated(tokens) && i < |tokens|
    ensures r.Parsed? ==> i < r.next < |tokens|
    decreases |tokens| - i
  {
    if !IsItem(tokens[i], what) then Refused(ItemName(what), i)
    else if tokens[i + 1].kind != Comma then Parsed([tokens[i].text], i + 1)
    else
      match ParseList(tokens, i + 2, what)
      case Refused(expected, at) => Refused(expected, at)
      case Parsed(rest, next) => Parsed([tokens[i].text] + rest, next)
  }

  /** A list in parentheses, of which an INSERT has two. */
  function ParseParens(tokens: seq<Token>, i: nat, what: ListOf, opening: string, closing: string)
    : (r: Parsed<seq<string>>)
    requires Terminated(tokens) && i < |tokens|
    ensures r.Parsed? ==> r.next < |tokens|
  {
    if tokens[i].kind != LeftParen then Refused(opening, i)
    else
      match ParseList(tokens, i + 1, what)
      case Refused(expected, at) => Refused(expected, at)
      case Parsed(items, n) => if tokens[n].kind != RightParen then Refused(closing, n) else Parsed(items, n + 1)
  }

  function ParseInsert(tokens: seq<Token>): (r: Parsed<InsertStatement>)
    requires Terminated(tokens)
    ensures r.Parsed? ==> r.next < |tokens|
  {
    if !IsKeyword(tokens[0], "INSERT") then Refused(KEYWORD + "INSERT", 0)
    else if !IsKeyword(tokens[1], "INTO") then Refused(KEYWORD + "INTO", 1)
    else if tokens[2].kind != Identifier then Refused("identifier", 2)
    else
      match ParseParens(tokens, 3, Identifiers, COLUMNS_OPEN, COLUMNS_CLOSE)
      case Refused(expected, at) => Refused(expected, at)
      case Parsed(columns, n) =>
        if !IsKeyword(tokens[n], "VALUES") then Refused(KEYWORD + "VALUES", n)
        else
          match ParseParens(tokens, n + 1, Values, VALUES_OPEN, VALUES_CLOSE)
          case Refused(expected, at) => Refused(expected, at)
          case Parsed(values, m) => Parsed(InsertStatement(tokens[2].text, columns, values), m)
  }

  function ParseColumns(tokens: seq<Token>): (r: Parsed<(bool, seq<string>)>)
    requires Terminated(tokens) && |tokens| > 1
    ensures r.Parsed? ==> r.next < |tokens|
  {
    if tokens[1].kind == Star then Parsed((true, []), 2)
    else
      match ParseList(tokens, 1, Identifiers)
      case Refused(expected, at) => Refused(expected, at)
      case Parsed(columns, n) => Parsed((false, columns), n)
  }

  function ParseWhere(tokens: seq<Token>, i: nat): (r: Parsed<Option<Condition>>)
    requires Terminated(tokens) && i < |tokens|
    ensures r.Parsed? ==> r.next < |tokens|
  {
    if !IsKeyword(tokens[i], "WHERE") then Parsed(None, i)
    else if tokens[i + 1].kind != Identifier then Refused("identifier", i + 1)
    else if tokens[i + 2].kind != EqualSign then Refused("expected '=' in WHERE clause", i + 2)
    else if !IsValue(tokens[i + 3]) then Refused("SQL value in WHERE clause", i + 3)
    else if IsConnector(tokens[i + 4]) then Refused(NO_CONNECTORS, i + 4)
    else Parsed(Some(Condition(tokens[i + 1].text, tokens[i + 3].text)), i + 4)
  }

  function ParseSelect(tokens: seq<Token>): (r: Parsed<SelectStatement>)
    requires Terminated(tokens)
    ensures r.Parsed? ==> r.next < |tokens|
  {
    if !IsKeyword(tokens[0], "SELECT") then Refused(KEYWORD + "SELECT", 0)
    else
      match ParseColumns(tokens)
      case Refused(expected, at) => Refused(expected, at)
      case Parsed((all, columns), n) =>
        if !IsKeyword(tokens[n], "FROM") then Refused(KEYWORD + "FROM", n)
        else if tokens[n + 1].kind != Identifier then Refused("identifier", n + 1)
        else
          match ParseWhere(tokens, n + 2)
          case Refused(expected, at) => Refused(expected, at)
          case Parsed(condition, m) => Parsed(SelectStatement(tokens[n + 1].text, columns, all, condition), m)
  }

  /** The end of a statement: a semicolon and nothing more. */
  function Finish(tokens: seq<Token>, statement: Statement, i: nat): Parsed<Statement>
    requires Terminated(tokens) && i < |tokens|
  {
    if tokens[i].kind != Semicolon then Refused("expected ';' at end of SQL statement", i)
    else if tokens[i + 1].kind != End then Refused("unexpected tokens after SQL statement", i + 1)
    else Parsed(statement, i + 2)
  }

  function ParseStatement(tokens: seq<Token>): Parsed<Statement>
    requires Terminated(tokens)
  {
    if IsKeyword(tokens[0], "INSERT") then
      match ParseInsert(tokens)
      case Refused(expected, at) => Refused(expected, at)
      case Parsed(insert, next) => Finish(tokens, Insert(insert), next)
    else if IsKeyword(tokens[0], "SELECT") then
      match ParseSelect(tokens)
      case Refused(expected, at) => Refused(expected, at)
      case Parsed(select, next) => Finish(tokens, Select(select), next)
    else Refused("only INSERT and SELECT are supported", 0)
  }

  // ----- The cursor machine --------------------------------------------------

  class Parser {
    const tokens: seq<Token>
    var index: nat
    var message: string

    ghost predicate Valid()
      reads this
    {
      Terminated(tokens) && index < |tokens|
    }

    constructor (tokens: seq<Token>)
      requires Terminated(tokens)
      ensures Valid() && this.tokens == tokens && index == 0
    {
      this.tokens, index, message := tokens, 0, "";
    }

    /** `match_type`, for a token that is not the last. */
    method MatchType(kind: TokenType) returns (ok: bool)
      requires Valid() && kind != End
      modifies `index
      ensures Valid() && ok == (tokens[old(index)].kind == kind) && index == (if ok then old(index) + 1 else old(index))
    {
      ok := tokens[index].kind == kind;
      if ok {
        index := index + 1;
      }
    }

    /** `expect_type`, for a token that is not the last. */
    method ExpectType(kind: TokenType, expected: string) returns (ok: bool)
      requires Valid() && kind != End
      modifies this
      ensures Valid() && ok == (tokens[old(index)].kind == kind) && index == (if ok then old(index) + 1 else old(index))
      ensures !ok ==> message == expected
    {
      ok := MatchType(kind);
      if !ok {
        message := expected;
      }
    }

    /** `expect_keyword`. */
    method ExpectKeyword(keyword: string) returns (ok: bool)
      requires Valid()
      modifies this
      ensures Valid() && ok == IsKeyword(tokens[old(index)], keyword)
      ensures index == (if ok then old(index) + 1 else old(index)) && (!ok ==> message == KEYWORD + keyword)
    {
      var same := StringsEqualIgnoreCase(tokens[index].text, keyword);
      ok := tokens[index].kind == Identifier && same;
      if ok {
        index := index + 1;
      } else {
        message := KEYWORD + keyword;
      }
    }

    /** `parse_identifier`, and the same step for the values of a list or a condition. */
    method ParseItem(what: ListOf, expected: string) returns (ok: bool, text: string)
      requires Valid()
      modifies this
      ensures Valid() && ok == IsItem(tokens[old(index)], what) && (ok ==> text == tokens[old(index)].text)
      ensures index == (if ok then old(index) + 1 else old(index)) && (!ok ==> message == expected)
    {
      ok, text := true, "";
      if !IsItem(tokens[index], what) {
        message := expected;
        return false, "";
      }
      text := tokens[index].text;
      index := index + 1;
    }

    /** `parse_identifier_list` and `parse_value_list`. */
    method ParseItems(what: ListOf) returns (ok: bool, items: seq<string>)
      requires Valid()
      modifies this
      ensures Valid() && Reports(ok, items, ParseList(tokens, old(index), what))
    {
      var item;
      items := [];
      ghost var whole := ParseList(tokens, index, what);
      ok, item := ParseItem(what, ItemName(what));
      if !ok {
        return;
      }
      items := [item];
      var more := MatchType(Comma);
      while more
        invariant Valid() && items != []
        invariant more ==> whole == Joined(items, ParseList(tokens, index, what))
        invariant !more ==> whole == Parsed(items, index)
        decreases |tokens| - index, more
      {
        ok, item := ParseItem(what, ItemName(what));
        if !ok {
          return;
        }
        ghost var before := items;
        items := items + [item];
        more := MatchType(Comma);
        if more {
          JoinedTwice(before, item, ParseList(tokens, index, what));
        }
      }
      ok := true;
    }

    /** What a method leaves behind is what the specification says. */
    ghost predicate Reports<T>(ok: bool, value: T, r: Parsed<T>)
      reads this
    {
      match r
      case Parsed(v, next) => ok && value == v && index == next
      case Refused(expected, at) => !ok && message == expected && index == at
    }

    /** The steps that `parse_insert` takes for its columns and again for its values. */
    method ParseListInParens(what: ListOf, opening: string, closing: string) returns (ok: bool, items: seq<string>)
      requires Valid()
      modifies this
      ensures Valid() && Reports(ok, items, ParseParens(tokens, old(index), what, opening, closing))
    {
      hide ParseList;
      items := [];
      ok := ExpectType(LeftParen, opening);
      if !ok { return; }
      ok, items := ParseItems(what);
      if !ok { return; }
      ok := ExpectType(RightParen, closing);
    }

    /** `parse_insert`. */
    method ParseInsertStatement() returns (ok: bool, insert: InsertStatement)
      requires Valid() && index == 0
      modifies this
      ensures Valid() && Reports(ok, insert, ParseInsert(tokens))
    {
      hide ParseParens, Terminated, SameIgnoringCase;
      insert := InsertStatement("", [], []);
      ok := ExpectKeyword("INSERT");
      if !ok { return; }
      ok := ExpectKeyword("INTO");
      if !ok { return; }
      var table, columns, values;
      ok, table := ParseItem(Identifiers, "identifier");
      if !ok { return; }
      ok, columns := ParseListInParens(Identifiers, COLUMNS_OPEN, COLUMNS_CLOSE);
      if !ok { return; }
      ok := ExpectKeyword("VALUES");
      if !ok { return; }
      ok, values := ParseListInParens(Values, VALUES_OPEN, VALUES_CLOSE);
      if !ok { return; }
      insert := InsertStatement(table, columns, values);
    }

    /** The WHERE clause of `parse_select`, when there is one. */
    method ParseWhereClause() returns (ok: bool, condition: Option<Condition>)
      requires Valid()
      modifies this
      ensures Valid() && Reports(ok, condition, ParseWhere(tokens, old(index)))
    {
      condition := None;
      var isWhere := StringsEqualIgnoreCase(tokens[index].text, "WHERE");
      if tokens[index].kind != Identifier || !isWhere {
        return true, None;
      }
      index := index + 1;
      var column, value;
      ok, column := ParseItem(Identifiers, "identifier");
      if !ok { return; }
      ok := ExpectType(EqualSign, "expected '=' in WHERE clause");
      if !ok { return; }
      ok, value := ParseItem(Values, "SQL value in WHERE clause");
      if !ok { return; }
      ok := RejectUnsupportedConnector();
      if !ok { return; }
      condition := Some(Condition(column, value));
    }

    /** `reject_unsupported_where_connector`. */
    method RejectUnsupportedConnector() returns (ok: bool)
      requires Valid()
      modifies `message
      ensures ok == !IsConnector(tokens[index]) && (!ok ==> message == NO_CONNECTORS)
    {
      if tokens[index].kind != Identifier {
        return true;
      }
      var isAnd := StringsEqualIgnoreCase(tokens[index].text, "AND");
      var isOr := StringsEqualIgnoreCase(tokens[index].text, "OR");
      if !isAnd && !isOr {
        return true;
      }
      message := NO_CONNECTORS;
      ok := false;
    }

    /** `parse_select`. */
    method ParseSelectStatement() returns (ok: bool, select: SelectStatement)
      requires Valid() && index == 0
      modifies this
      ensures Valid() && Reports(ok, select, ParseSelect(tokens))
    {
      select := SelectStatement("", [], false, None);
      ok := ExpectKeyword("SELECT");
      if !ok { return; }
      var columns: seq<string> := [];
      var all := MatchType(Star);
      if !all {
        ok, columns := ParseItems(Identifiers);
        if !ok { return; }
      }
      ok := ExpectKeyword("FROM");
      if !ok { return; }
      var table, condition;
      ok, table := ParseItem(Identifiers, "identifier");
      if !ok { return; }
      ok, condition := ParseWhereClause();
      if !ok { return; }
      select := SelectStatement(table, columns, all, condition);
    }

    /** `parse_statement`. */
    method Parse() returns (r: Parsed<Statement>)
      requires Valid() && index == 0
      modifies this
      ensures r == ParseStatement(tokens)
    {
      hide ParseInsert, ParseSelect, SameIgnoringCase;
      var statement, ok;
      var isInsert := StringsEqualIgnoreCase(tokens[0].text, "INSERT");
      var isSelect := StringsEqualIgnoreCase(tokens[0].text, "SELECT");
      if tokens[0].kind == Identifier && isInsert {
        var insert;
        ok, insert := ParseInsertStatement();
        statement := Insert(insert);
      } else if tokens[0].kind == Identifier && isSelect {
        var select;
        ok, select := ParseSelectStatement();
        statement := Select(select);
      } else {
        return Refused("only INSERT and SELECT are supported", 0);
      }
      if !ok {
        return Refused(message, index);
      }
      ok := ExpectType(Semicolon, "expected ';' at end of SQL statement");
      if !ok {
        return Refused(message, index);
      }
      if tokens[index].kind != End {
        return Refused("unexpected tokens after SQL statement", index);
      }
      r := Parsed(statement, index + 1);
    }
  }

  /** A list whose first items have been read already. */
  function Joined(items: seq<string>, rest: Parsed<seq<string>>): Parsed<seq<string>> {
    if rest.Parsed? then Parsed(items + rest.value, rest.next) else rest
  }

  lemma JoinedTwice(items: seq<string>, item: string, rest: Parsed<seq<string>>)
    ensures Joined(items, Joined([item], rest)) == Joined(items + [item], rest)
  {
    if rest.Parsed? {
      assert items + ([item] + rest.value) == items + [item] + rest.value;
    }
  }
}
