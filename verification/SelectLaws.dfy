/**
  What a SELECT answers, said by the statement, the schema and the file alone: which
  rows, which cells of them, and which complaint when there is no answer.
*/
module SelectLaws {
  import opened Wrappers
  import opened Text
  import opened CsvFile
  import opened Ast
  import opened BTreeModel
  import opened IndexSpec
  import opened Query
  import opened Engine
  import opened EngineLaws

  /** Something is selected, and every selected name is `id` or a column. */
  predicate Resolves(stmt: SelectStatement, schema: Schema) {
    if stmt.selectAll then schema.columns != []
    else
      && stmt.columns != []
      && forall j :: 0 <= j < |stmt.columns| ==> stmt.columns[j] == "id" || stmt.columns[j] in schema.columns
  }

  ghost predicate ShowsCell(name: string, columns: seq<string>, fields: seq<string>, id: int, cell: string)
    requires |fields| == |columns|
  {
    if name == "id" then cell == Decimal(id) else exists p: nat :: StandsAt(columns, name, p) && cell == fields[p]
  }

  /** The output row for a data row and its id: all its fields, or the cells that the list of names asks for. */
  ghost predicate Shows(stmt: SelectStatement, schema: Schema, fields: seq<string>, id: int, out: seq<string>)
    requires |fields| == |schema.columns|
  {
    if stmt.selectAll then out == fields
    else
      && |out| == |stmt.columns|
      && forall j :: 0 <= j < |out| ==> ShowsCell(stmt.columns[j], schema.columns, fields, id, out[j])
  }

  /** The file scans and every row has as many fields as the schema has columns. */
  ghost predicate Rectangular(s: State, schema: Schema) {
    && Scans(s, schema.storageName)
    && forall i :: 0 <= i < |RowsOf(s, schema.storageName)| ==>
         |RowsOf(s, schema.storageName)[i].fields| == |schema.columns|
  }

  /** Memory lasts for a SELECT that scans the file, which needs no index entry. */
  predicate Lasts(supply: Supply) {
    supply.halt.Never? || supply.halt.AtEntry?
  }

  // ----- The selection -------------------------------------------------------

  lemma {:induction false} PositionsOk(names: seq<string>, columns: seq<string>)
    ensures Positions(names, columns).Ok? <==>
      forall j :: 0 <= j < |names| ==> names[j] == "id" || names[j] in columns
    decreases |names|
  {
    if names != [] {
      PositionsOk(names[..|names| - 1], columns);
    }
  }

  lemma SelectionMeans(stmt: SelectStatement, schema: Schema)
    ensures Selection(stmt, schema).Ok? && Selection(stmt, schema).value != [] <==> Resolves(stmt, schema)
    ensures Selection(stmt, schema).Ok? ==> InRange(Selection(stmt, schema).value, |schema.columns|)
  {
    hide Positions;
    if !stmt.selectAll {
      PositionsOk(stmt.columns, schema.columns);
    }
  }

  lemma ProjectShows(stmt: SelectStatement, schema: Schema, fields: seq<string>, id: int)
    requires Resolves(stmt, schema) && |fields| == |schema.columns|
    ensures Selection(stmt, schema).Ok? && InRange(Selection(stmt, schema).value, |fields|)
    ensures Shows(stmt, schema, fields, id, Project(fields, Selection(stmt, schema).value, id))
  {
    hide Positions, Project;
    SelectionMeans(stmt, schema);
    var selected := Selection(stmt, schema).value;
    var out := Project(fields, selected, id);
    if stmt.selectAll {
      assert out == fields;
    } else {
      forall j | 0 <= j < |out| ensures ShowsCell(stmt.columns[j], schema.columns, fields, id, out[j]) {
        CellShows(stmt.columns, schema.columns, fields, id, j);
      }
    }
  }

  lemma CellShows(names: seq<string>, columns: seq<string>, fields: seq<string>, id: int, j: nat)
    requires Positions(names, columns).Ok? && j < |names| && |fields| == |columns|
    ensures var p := Positions(names, columns).value[j];
      -1 <= p < |columns| && ShowsCell(names[j], columns, fields, id, Cell(fields, p, id))
  {
    if names[j] != "id" {
      PositionIsFirst(names, columns, j);
    }
    hide Positions;
    var p := Positions(names, columns).value[j];
    if names[j] != "id" {
      assert StandsAt(columns, names[j], p);
    }
  }

  lemma {:induction false} PositionIsFirst(names: seq<string>, columns: seq<string>, j: nat)
    requires Positions(names, columns).Ok? && j < |names| && names[j] != "id"
    ensures Positions(names, columns).value[j] == FirstIndex(columns, names[j])
    decreases |names|
  {
    if j < |names| - 1 {
      PositionIsFirst(names[..|names| - 1], columns, j);
    }
  }

  // ----- SELECT by scanning --------------------------------------------------

  /** A scanning SELECT whose selection and column are known, and how it answers. */
  lemma ScanPath(s: State, schema: Schema, stmt: SelectStatement, supply: Supply, filter: Filter)
    requires SoundState(s) && !IsById(stmt) && Resolves(stmt, schema) && !supply.halt.AtStart?
    requires FilterOf(stmt, schema) == Ok(filter)
    ensures Selection(stmt, schema).Ok? && InRange(Selection(stmt, schema).value, |schema.columns|)
    ensures var name := schema.storageName;
      ExecSelect(s, schema, stmt, supply) ==
        (s, if name !in s.files then Failed(LookupFailed(CannotOpen))
            else if !Lasts(supply) then Failed(NoMemoryLeft)
            else LinearSelect(s.files[name], |schema.columns|, filter, Selection(stmt, schema).value))
  {
    hide LinearSelect, Selection, ExecSelectById;
    SelectionMeans(stmt, schema);
  }

  /** The unfiltered rows of a scanning SELECT, or the reason why there are none. */
  lemma LinearMeans(s: State, schema: Schema, stmt: SelectStatement)
    requires Resolves(stmt, schema) && schema.storageName in s.files
    ensures Selection(stmt, schema).Ok? && InRange(Selection(stmt, schema).value, |schema.columns|)
    ensures var bytes, width := s.files[schema.storageName], |schema.columns|;
      var rows := RowsOf(s, schema.storageName);
      var answer := LinearSelect(bytes, width, All, Selection(stmt, schema).value);
      if Rectangular(s, schema) then
        && answer.Rows? && |answer.rows| == |rows|
        && forall i :: 0 <= i < |rows| ==> Shows(stmt, schema, rows[i].fields, i + 1, answer.rows[i])
      else answer == Failed(WhyNot(s, schema))
  {
    hide Selection, Project, ScanFrom, LinearFrom, Shows;
    SelectionMeans(stmt, schema);
    var bytes, width, selected := s.files[schema.storageName], |schema.columns|, Selection(stmt, schema).value;
    var scan := ScanFile(bytes);
    assert scan.rows == RowsOf(s, schema.storageName);
    LinearIsAllRows(scan, width, selected, 1);
    if Rectangular(s, schema) {
      ScannedHasHeader(bytes);
      forall i | 0 <= i < |scan.rows|
        ensures Shows(stmt, schema, scan.rows[i].fields, i + 1, Project(scan.rows[i].fields, selected, i + 1))
      {
        ProjectShows(stmt, schema, scan.rows[i].fields, i + 1);
      }
    } else if bytes != "" {
      LinearFailure(scan, width, selected, 1);
    }
  }

  /** Why a file does not make a table of this width: the first thing a scan stumbles over. */
  ghost function WhyNot(s: State, schema: Schema): QueryError
    requires schema.storageName in s.files
  {
    var bytes := s.files[schema.storageName];
    var scan := ScanFile(bytes);
    if bytes == "" then EmptyFile
    else if exists i :: 0 <= i < |scan.rows| && |scan.rows[i].fields| != |schema.columns| then WrongFieldCount
    else BadLine(if scan.error.Some? then scan.error.value else "")
  }

  /** Why a scanning SELECT with a good selection and a known column has no rows to show. */
  ghost function ScanError(s: State, schema: Schema, supply: Supply): QueryError {
    if schema.storageName !in s.files then LookupFailed(CannotOpen)
    else if !Lasts(supply) then NoMemoryLeft
    else WhyNot(s, schema)
  }

  /**
    A SELECT without WHERE shows every row of the file under its ordinal, cell by cell
    what was asked for, if the selection resolves, memory lasts and the file is a table
    of the schema's width; otherwise it fails. It changes nothing.
  */
  lemma SelectAllRows(s: State, schema: Schema, stmt: SelectStatement, supply: Supply)
    requires SoundState(s) && stmt.where.None?
    ensures var (s', answer) := ExecSelect(s, schema, stmt, supply);
      && s' == s
      && (answer.Rows? <==> Resolves(stmt, schema) && Lasts(supply) && Rectangular(s, schema))
      && (answer.Rows? ==>
            var rows := RowsOf(s, schema.storageName);
            && |answer.rows| == |rows|
            && forall i :: 0 <= i < |rows| ==> Shows(stmt, schema, rows[i].fields, i + 1, answer.rows[i]))
      && (Resolves(stmt, schema) && !supply.halt.AtStart? && answer.Failed? ==>
            answer.error == ScanError(s, schema, supply))
  {
    hide LinearSelect, Selection, Shows, WhyNot, ScanFile;
    SelectionMeans(stmt, schema);
    if Resolves(stmt, schema) && !supply.halt.AtStart? {
      ScanPath(s, schema, stmt, supply, All);
      if schema.storageName in s.files {
        LinearMeans(s, schema, stmt);
      }
    }
  }

  /**
    WHERE c = v for a column c of the schema: exactly the rows whose field at the place
    of c is v, in order and under their ordinals; it fails when the same SELECT without
    WHERE fails, and for the same reason.
  */
  lemma SelectMatchingRows(s: State, schema: Schema, stmt: SelectStatement, supply: Supply,
                           c: string, v: string, p: nat)
    requires SoundState(s) && stmt.where == Some(Condition(c, v)) && c != "id" && StandsAt(schema.columns, c, p)
    ensures var (s', answer) := ExecSelect(s, schema, stmt, supply);
      && s' == s
      && (answer.Rows? <==> Resolves(stmt, schema) && Lasts(supply) && Rectangular(s, schema))
      && (answer.Rows? ==>
            var rows := RowsOf(s, schema.storageName);
            var hits := Hits(rows, p, v, 0);
            && Increasing(hits) && (forall i :: i in hits <==> 0 <= i < |rows| && rows[i].fields[p] == v)
            && |answer.rows| == |hits|
            && forall k :: 0 <= k < |hits| ==>
                 Shows(stmt, schema, rows[hits[k]].fields, hits[k] + 1, answer.rows[k]))
      && (Resolves(stmt, schema) && !supply.halt.AtStart? && answer.Failed? ==>
            answer.error == ScanError(s, schema, supply))
  {
    hide LinearSelect, Selection, Shows, WhyNot, ScanFile, Pick;
    SelectionMeans(stmt, schema);
    if Resolves(stmt, schema) && !supply.halt.AtStart? {
      FirstIndexIs(schema.columns, c, p);
      ScanPath(s, schema, stmt, supply, Equals(p, v));
      if schema.storageName in s.files {
        LinearMeans(s, schema, stmt);
        FilterPicksRows(s.files[schema.storageName], |schema.columns|, p, v, Selection(stmt, schema).value);
        if Rectangular(s, schema) {
          var rows := RowsOf(s, schema.storageName);
          HitsAreExact(rows, p, v, 0);
          var all := LinearSelect(s.files[schema.storageName], |schema.columns|, All, Selection(stmt, schema).value);
          PickedRows(all.rows, Hits(rows, p, v, 0));
        }
      }
    }
  }

  lemma PickedRows(all: seq<seq<string>>, hits: seq<nat>)
    requires forall k :: 0 <= k < |hits| ==> hits[k] < |all|
    ensures |Pick(all, hits)| == |hits| && forall k :: 0 <= k < |hits| ==> Pick(all, hits)[k] == all[hits[k]]
  {
  }

  // ----- Statements that are refused -----------------------------------------

  /** What is wrong with the statement itself is told before any file is read, and nothing changes. */
  lemma SelectRefused(s: State, schema: Schema, stmt: SelectStatement, supply: Supply)
    requires SoundState(s)
    ensures supply.halt.AtStart? ==> ExecSelect(s, schema, stmt, supply) == (s, Failed(NoMemoryLeft))
    ensures !supply.halt.AtStart? && !Resolves(stmt, schema) ==>
      var (s', answer) := ExecSelect(s, schema, stmt, supply);
      && s' == s && answer.Failed?
      && (stmt.selectAll || stmt.columns == [] ==> answer.error == NothingSelected)
      && forall k :: !stmt.selectAll && 0 <= k < |stmt.columns| && FirstUnknown(stmt.columns, schema.columns, k) ==>
           answer.error == UnknownSelectColumn(stmt.columns[k])
    ensures !supply.halt.AtStart? && Resolves(stmt, schema) && stmt.where.Some? ==>
      var c := stmt.where.value.column;
      c != "id" && c !in schema.columns ==> ExecSelect(s, schema, stmt, supply) == (s, Failed(UnknownWhereColumn(c)))
  {
    hide LinearSelect, ExecSelectById, Positions, FirstUnknown;
    SelectionMeans(stmt, schema);
    if !stmt.selectAll && stmt.columns != [] {
      forall k | 0 <= k < |stmt.columns| && FirstUnknown(stmt.columns, schema.columns, k)
        ensures Positions(stmt.columns, schema.columns) == Err(stmt.columns[k])
      {
        UnknownIsReported(stmt.columns, schema.columns, k);
      }
    }
    PositionsOfNone(schema.columns);
  }

  predicate FirstUnknown(names: seq<string>, columns: seq<string>, k: nat) {
    && k < |names| && names[k] != "id" && names[k] !in columns
    && forall j :: 0 <= j < k ==> names[j] == "id" || names[j] in columns
  }

  lemma UnknownIsReported(names: seq<string>, columns: seq<string>, k: nat)
    requires FirstUnknown(names, columns, k)
    ensures Positions(names, columns) == Err(names[k])
  {
    hide Positions;
    PositionsOk(names[..k], columns);
    PositionsStep(names, columns, k);
    PositionsFailEarly(names, columns, k + 1);
  }

  // ----- WHERE id = n --------------------------------------------------------

  /** A key that is not the text of an `int` is refused, whatever the file and the index. */
  lemma KeyMustBeInteger(s: State, name: string, width: nat, selected: seq<int>, text: string, supply: Supply)
    requires SoundState(s) && InRange(selected, width)
    requires forall n :: INT_MIN <= n <= INT_MAX ==> !WritesInt(text, n)
    ensures ExecSelectById(s, name, width, selected, text, supply) == (s, Failed(NotAnInteger))
  {
    hide ParseIntStrict, WritesInt, LoadFor;
    if ParseIntStrict(text).Some? {
      ParsesExactly(text, ParseIntStrict(text).value);
    }
  }

  /**
    WHERE id = n where cache and file agree: the one row with that ordinal, cell by
    cell what was asked for, nothing when there is none, and a complaint when its width
    is wrong; a key that is no integer is refused with nothing changed.
  */
  lemma SelectRowById(s: State, schema: Schema, stmt: SelectStatement, supply: Supply, text: string, n: int)
    requires SoundState(s) && stmt.where == Some(Condition("id", text))
    requires Resolves(stmt, schema) && !supply.halt.AtStart?
    ensures (forall m :: INT_MIN <= m <= INT_MAX ==> !WritesInt(text, m)) ==>
      ExecSelect(s, schema, stmt, supply) == (s, Failed(NotAnInteger))
    ensures var answer, name := ExecSelect(s, schema, stmt, supply).1, schema.storageName;
      AgreesAt(s, name) && Scans(s, name) && CanUse(s, name, supply) && INT_MIN <= n <= INT_MAX
      && WritesInt(text, n) ==>
        var rows := RowsOf(s, name);
        if n < 1 || |rows| < n then answer == Rows([])
        else if |rows[n - 1].fields| != |schema.columns| then answer == Failed(WrongFieldCount)
        else
          answer.Rows? && |answer.rows| == 1 && Shows(stmt, schema, rows[n - 1].fields, n, answer.rows[0])
  {
    hide ParseIntStrict, WritesInt, Selection, ExecSelectById, AgreesAt, CanUse, ScanFile, Shows, Project;
    SelectionMeans(stmt, schema);
    var name, width, selected := schema.storageName, |schema.columns|, Selection(stmt, schema).value;
    if forall m :: INT_MIN <= m <= INT_MAX ==> !WritesInt(text, m) {
      KeyMustBeInteger(s, name, width, selected, text, supply);
    }
    if AgreesAt(s, name) && Scans(s, name) && CanUse(s, name, supply) && INT_MIN <= n <= INT_MAX && WritesInt(text, n) {
      ParsesExactly(text, n);
      SelectByIdIsExact(s, name, width, selected, text, n, supply);
      var rows := RowsOf(s, name);
      if 1 <= n <= |rows| && |rows[n - 1].fields| == width {
        ProjectShows(stmt, schema, rows[n - 1].fields, n);
      }
    }
  }

  /** A look-up by id that is answered leaves the index of its table loaded, for the next one to use. */
  lemma LookUpLoadsIndex(s: State, schema: Schema, stmt: SelectStatement, supply: Supply)
    requires SoundState(s) && IsById(stmt) && schema.storageName in s.files
    ensures var (s', answer) := ExecSelect(s, schema, stmt, supply);
      && s'.files == s.files && s'.forced == s.forced
      && (answer.Rows? ==>
            && EntryOf(s', schema.storageName).loaded && CanUse(s, schema.storageName, supply)
            && (EntryOf(s, schema.storageName).loaded ==> s' == s))
  {
    hide LoadFor, IndexSelect, Selection, Sound, AgreesAt, CanUse, ParseIntStrict, ExecSelectById;
    if Selection(stmt, schema).Ok? {
      SelectionMeans(stmt, schema);
      ByIdLoads(s, schema.storageName, |schema.columns|, Selection(stmt, schema).value, stmt.where.value.value, supply);
    }
    if EntryOf(s, schema.storageName).loaded {
      LoadedIsUsed(s, schema.storageName, supply);
    }
  }

  lemma ByIdLoads(s: State, name: string, width: nat, selected: seq<int>, text: string, supply: Supply)
    requires SoundState(s) && InRange(selected, width) && name in s.files
    ensures var (s', answer) := ExecSelectById(s, name, width, selected, text, supply);
      && (s' == s || s' == LoadFor(s, name, supply).0) && s'.files == s.files && s'.forced == s.forced
      && (answer.Rows? ==> EntryOf(s', name).loaded && CanUse(s, name, supply))
  {
    hide LoadFor, IndexSelect, Sound, AgreesAt, CanUse, ParseIntStrict;
    LoadForTouchesOne(s, name, supply);
    LoadsExactly(s, name, supply);
    var (s1, load) := LoadFor(s, name, supply);
    var (s', answer) := ExecSelectById(s, name, width, selected, text, supply);
    if answer.Rows? {
      assert ParseIntStrict(text).Some? && load.error.None? && !supply.halt.AfterLoad? && s' == s1;
    }
  }

  /** With the index loaded, a look-up stops for lack of other memory, or, if it finds the id, of a file. */
  lemma LoadedLookUpStops(s: State, name: string, width: nat, selected: seq<int>, text: string, n: int, supply: Supply)
    requires SoundState(s) && EntryOf(s, name).loaded && InRange(selected, width)
    requires INT_MIN <= n <= INT_MAX && WritesInt(text, n)
    ensures supply.halt.AfterLoad? ==>
      ExecSelectById(s, name, width, selected, text, supply) == (s, Failed(NoMemoryLeft))
    ensures supply.halt.Never? && name !in s.files ==>
      ExecSelectById(s, name, width, selected, text, supply) ==
        (s, if n in Contents(EntryOf(s, name).tree.root) then Failed(LookupFailed(CannotOpen)) else Rows([]))
  {
    hide LoadFor, IndexSelect, ParseIntStrict, WritesInt, Contents;
    ParsesExactly(text, n);
    LoadedIsUsed(s, name, supply);
  }
}
