/**
  From SQL text to stored rows and back: lexer, parser and executor together
  (src/app/main.c, `execute_sql_text`), with loaded schemas as given.
*/
module EndToEnd {
  import opened Wrappers
  import opened Text
  import opened CsvCodec
  import opened CsvFile
  import opened Ast
  import opened Query
  import opened Engine
  import opened EngineLaws
  import opened InsertLaws
  import opened RunLaws
  import opened SqlRoundTrip
  import opened Executor

  datatype TextOutcome = NotSql | UnknownTable | Inserted(outcome: InsertOutcome) | Selected(answer: Answer)

  /** `execute_statement`; `catalog` stands for the schemas that `load_schema` finds. */
  ghost function ExecStatement(s: State, catalog: map<string, Schema>, statement: Statement, supply: Supply)
    : (r: (State, TextOutcome))
    requires SoundState(s)
  {
    match statement
    case Insert(insert) =>
      if insert.tableName !in catalog then (s, UnknownTable)
      else
        var (s', outcome) := ExecInsert(s, catalog[insert.tableName], insert, supply);
        (s', Inserted(outcome))
    case Select(select) =>
      if select.tableName !in catalog then (s, UnknownTable)
      else
        var (s', answer) := ExecSelect(s, catalog[select.tableName], select, supply);
        (s', Selected(answer))
  }

  /** What one SQL text does. */
  ghost function ExecText(s: State, catalog: map<string, Schema>, text: string, supply: Supply): (State, TextOutcome)
    requires SoundState(s)
  {
    var statement := Read(text);
    if statement.None? then (s, NotSql) else ExecStatement(s, catalog, statement.value, supply)
  }

  /** `execute_sql_text` down to `execute_statement`. */
  method ExecuteText(db: Database, catalog: map<string, Schema>, text: string, supply: Supply)
    returns (outcome: TextOutcome)
    requires db.Valid() && SoundState(db.Abs())
    modifies db, db.registry.repr
    ensures db.Valid() && fresh(db.registry.repr - old(db.registry.repr))
    ensures (db.Abs(), outcome) == ExecText(old(db.Abs()), catalog, text, supply)
  {
    hide Read, ExecInsert, ExecSelect, SoundState, Database.Valid, Database.Abs;
    var statement := ReadSql(text);
    if statement.None? {
      return NotSql;
    }
    match statement.value
    case Insert(insert) =>
      if insert.tableName !in catalog {
        return UnknownTable;
      }
      var inserted := db.ExecuteInsert(catalog[insert.tableName], insert, supply);
      outcome := Inserted(inserted);
    case Select(select) =>
      if select.tableName !in catalog {
        return UnknownTable;
      }
      var answer, slots := db.ExecuteSelect(catalog[select.tableName], select, supply);
      outcome := Selected(answer);
  }

  /** SELECT * FROM table WHERE id = id; */
  function ById(table: string, id: int): Statement {
    Select(SelectStatement(table, [], true, Some(Condition("id", Decimal(id)))))
  }

  lemma ByIdIsPrintable(table: string, id: int)
    requires IsIdentifier(table)
    ensures Printable(ById(table, id))
  {
  }

  function EveryColumn(width: nat): seq<int> {
    seq(width, i => i)
  }

  lemma ProjectAll(row: seq<string>, id: int)
    ensures Project(row, EveryColumn(|row|), id) == row
  {
  }

  lemma ExecById(s: State, schema: Schema, table: string, id: int, supply: Supply)
    requires SoundState(s) && schema.Valid() && !supply.halt.AtStart?
    ensures ExecSelect(s, schema, ById(table, id).select, supply) ==
      ExecSelectById(s, schema.storageName, |schema.columns|, EveryColumn(|schema.columns|), Decimal(id), supply)
  {
  }

  /** A text that writes a statement executes it. */
  lemma TextExecutes(s: State, catalog: map<string, Schema>, text: string, statement: Statement, supply: Supply)
    requires SoundState(s) && Writes(text, statement)
    ensures ExecText(s, catalog, text, supply) == ExecStatement(s, catalog, statement, supply)
  {
    hide Read, Writes, ExecStatement;
    ReadsExactlyWhatIsWritten(text, statement);
  }

  lemma PrintIsWritten(statement: Statement, style: Style)
    requires Printable(statement) && Fair(style)
    ensures Writes(Print(statement, style), statement)
  {
    hide Read, Writes, Print, Printable, Fair;
    PrintedIsRead(statement, style);
    ReadsExactlyWhatIsWritten(Print(statement, style), statement);
  }

  /** A text that writes no statement, or one on a table that is not in the catalog, changes nothing. */
  lemma OtherTextsDoNothing(s: State, catalog: map<string, Schema>, text: string, supply: Supply)
    requires SoundState(s)
    ensures (forall statement :: !Writes(text, statement)) ==> ExecText(s, catalog, text, supply) == (s, NotSql)
    ensures forall insert ::
      Writes(text, Insert(insert)) && insert.tableName !in catalog ==>
        ExecText(s, catalog, text, supply) == (s, UnknownTable)
    ensures forall select ::
      Writes(text, Select(select)) && select.tableName !in catalog ==>
        ExecText(s, catalog, text, supply) == (s, UnknownTable)
  {
    hide Read, Writes;
    if Read(text).Some? {
      ReadsExactlyWhatIsWritten(text, Read(text).value);
    }
    forall insert | Writes(text, Insert(insert)) ensures Read(text) == Some(Insert(insert)) {
      ReadsExactlyWhatIsWritten(text, Insert(insert));
    }
    forall select | Writes(text, Select(select)) ensures Read(text) == Some(Select(select)) {
      ReadsExactlyWhatIsWritten(text, Select(select));
    }
  }

  /**
    Every text of an INSERT into a known table, in any layout: it inserts if and only if
    the statement is accepted, the index can be used, the row is not cut off and its
    registration succeeds; then the file has exactly its row appended. Any other outcome
    is one of an INSERT as well.
  */
  lemma InsertTextInserts(s: State, catalog: map<string, Schema>, text: string, insert: InsertStatement, supply: Supply)
    requires SoundState(s) && Writes(text, Insert(insert)) && insert.tableName in catalog
    requires catalog[insert.tableName].Valid()
    ensures var schema := catalog[insert.tableName];
      var name, (s', o) := schema.storageName, ExecText(s, catalog, text, supply);
      && o.Inserted? && (RowOf(schema, insert).Some? <==> Accepted(schema, insert))
      && (o.outcome.RowInserted? ==>
            && name in s.files && Accepted(schema, insert) && IsRowFor(schema, insert, RowOf(schema, insert).value)
            && s'.files == s.files[name := Appended(s.files[name], RowOf(schema, insert).value)])
      && (AgreesAt(s, name) ==>
            (o.outcome.RowInserted? <==>
              && Reaches(s, schema, insert, supply) && |RowOf(schema, insert).value| <= supply.fields
              && Registers(s, schema, insert, supply)))
  {
    hide ExecText, Writes, ExecInsert, RowOf, Accepted, Reaches, Registers, AgreesAt, Appended, IsRowFor, SoundState;
    var schema := catalog[insert.tableName];
    TextExecutes(s, catalog, text, Insert(insert), supply);
    RowOfMeans(schema, insert);
    if ExecInsert(s, schema, insert, supply).1.RowInserted? {
      InsertedRowIsWritten(s, schema, insert, supply);
    }
    if AgreesAt(s, schema.storageName) {
      InsertsExactly(s, schema, insert, supply);
    }
  }

  lemma InsertsExactly(s: State, schema: Schema, insert: InsertStatement, supply: Supply)
    requires SoundState(s) && schema.Valid() && AgreesAt(s, schema.storageName)
    ensures ExecInsert(s, schema, insert, supply).1.RowInserted? <==>
      && Reaches(s, schema, insert, supply) && |RowOf(schema, insert).value| <= supply.fields
      && Registers(s, schema, insert, supply)
  {
    hide ExecInsert, RowOf, CanUse, Registers, AgreesAt, SoundState, AppendedState;
    InsertOutcomes(s, schema, insert, supply);
  }

  /** Every text of a SELECT from a known table answers what the executor answers, and loads what it loads. */
  lemma SelectTextSelects(s: State, catalog: map<string, Schema>, text: string, select: SelectStatement, supply: Supply)
    requires SoundState(s) && Writes(text, Select(select)) && select.tableName in catalog
    ensures var (s', answer) := ExecSelect(s, catalog[select.tableName], select, supply);
      ExecText(s, catalog, text, supply) == (s', Selected(answer))
  {
    hide ExecText, Writes, ExecSelect, SoundState;
    TextExecutes(s, catalog, text, Select(select), supply);
  }

  /**
    The printed INSERT of any values, followed by any run of other steps that does not
    rewrite the table, is found again by the printed query for its id, with exactly the
    normal form of its row, unless that query finds no index to use.
  */
  lemma InsertedTextIsFound(s: State, catalog: map<string, Schema>, insert: InsertStatement, supply: Supply,
                            steps: seq<Step>, style: Style, later: Supply)
    requires SoundState(s) && Printable(Insert(insert)) && Fair(style) && insert.tableName in catalog
    requires Storable(catalog[insert.tableName], insert) && AgreesAt(s, catalog[insert.tableName].storageName)
    requires NoneRewrites(steps, catalog[insert.tableName].storageName)
    ensures var schema := catalog[insert.tableName];
      var (s1, outcome) := ExecText(s, catalog, Print(Insert(insert), style), supply);
      outcome == Inserted(RowInserted) ==>
        && SoundState(s1) && Scans(s, schema.storageName) && RowOf(schema, insert).Some?
        && FoundAgain(Run(s1, steps), catalog, insert.tableName, |RowsOf(s, schema.storageName)| + 1,
                      NormRow(RowOf(schema, insert).value), style, later)
  {
    hide ExecText, Print, Run, RowOf, RowsOf, FoundAgain, SoundState, AgreesAt, Writes, Fair;
    PrintIsWritten(Insert(insert), style);
    TextExecutes(s, catalog, Print(Insert(insert), style), Insert(insert), supply);
    if ExecInsert(s, catalog[insert.tableName], insert, supply).1.RowInserted? {
      FoundAfterInsert(s, catalog, insert, supply, steps, style, later);
    }
  }

  lemma FoundAfterInsert(s: State, catalog: map<string, Schema>, insert: InsertStatement, supply: Supply,
                         steps: seq<Step>, style: Style, later: Supply)
    requires SoundState(s) && Printable(Insert(insert)) && Fair(style) && insert.tableName in catalog
    requires Storable(catalog[insert.tableName], insert) && AgreesAt(s, catalog[insert.tableName].storageName)
    requires NoneRewrites(steps, catalog[insert.tableName].storageName)
    requires ExecInsert(s, catalog[insert.tableName], insert, supply).1.RowInserted?
    ensures var schema := catalog[insert.tableName];
      var s1 := ExecInsert(s, schema, insert, supply).0;
      && SoundState(s1) && Scans(s, schema.storageName) && RowOf(schema, insert).Some?
      && FoundAgain(Run(s1, steps), catalog, insert.tableName, |RowsOf(s, schema.storageName)| + 1,
                    NormRow(RowOf(schema, insert).value), style, later)
  {
    hide *;
    var schema := catalog[insert.tableName];
    RowsAfterInsert(s, schema, insert, supply);
    var row, id := NormRow(RowOf(schema, insert).value), |RowsOf(s, schema.storageName)| + 1;
    var s2 := Run(ExecInsert(s, schema, insert, supply).0, steps);
    InsertGivesQuery(schema, insert, id);
    if id <= INT_MAX {
      InsertedRowEndures(s, schema, insert, supply, steps, EveryColumn(|schema.columns|), Decimal(id), id, later);
    }
    FoundById(s2, catalog, insert.tableName, id, row, style, later);
  }

  /** The table and the columns of the later query are valid, and so is its key. */
  lemma InsertGivesQuery(schema: Schema, insert: InsertStatement, id: nat)
    requires Printable(Insert(insert)) && Storable(schema, insert)
    ensures IsIdentifier(insert.tableName) && schema.Valid()
    ensures InRange(EveryColumn(|schema.columns|), |schema.columns|)
    ensures id <= INT_MAX ==> ParseIntStrict(Decimal(id)) == Some(id)
  {
    hide IsIdentifier, AllIdentifiers, CStrings, Short;
    DecimalReadBack(id);
  }

  /** A row that a look-up by its id finds is found by the text of that query. */
  lemma FoundById(s: State, catalog: map<string, Schema>, table: string, id: nat, row: seq<string>, style: Style,
                  supply: Supply)
    requires SoundState(s) && Fair(style) && IsIdentifier(table) && table in catalog && catalog[table].Valid()
    requires |row| == |catalog[table].columns|
    requires id <= INT_MAX ==>
      var name, width := catalog[table].storageName, |catalog[table].columns|;
      var answer := ExecSelectById(s, name, width, EveryColumn(width), Decimal(id), supply).1;
      && name in s.files
      && if CanUse(s, name, supply) then answer == Rows([Project(row, EveryColumn(width), id)])
         else IndexUnusable(answer)
    ensures FoundAgain(s, catalog, table, id, row, style, supply)
  {
    hide ExecText, Print, Printable, SoundState, CanUse, ExecSelectById, EveryColumn, Project, Writes, Fair;
    if id <= INT_MAX {
      ByIdIsPrintable(table, id);
      PrintIsWritten(ById(table, id), style);
      TextExecutes(s, catalog, Print(ById(table, id), style), ById(table, id), supply);
      if !supply.halt.AtStart? {
        ExecById(s, catalog[table], table, id, supply);
      }
      ProjectAll(row, id);
    }
  }

  /** The query for the id, as SQL text, answers this row or fails for want of an index - if the id is an `int`. */
  ghost predicate FoundAgain(s: State, catalog: map<string, Schema>, table: string, id: nat, row: seq<string>,
                             style: Style, supply: Supply)
    requires Fair(style)
  {
    SoundState(s) && IsIdentifier(table) && table in catalog && (
      id <= INT_MAX ==>
        && Printable(ById(table, id)) && catalog[table].storageName in s.files
        && var outcome := ExecText(s, catalog, Print(ById(table, id), style), supply).1;
           if !supply.halt.AtStart? && CanUse(s, catalog[table].storageName, supply) then
             outcome == Selected(Rows([row]))
           else outcome.Selected? && IndexUnusable(outcome.answer))
  }
}
