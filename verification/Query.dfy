/**
  The two ways a SELECT finds its rows (src/execution/executor.c): scanning the
  whole CSV file, and one look-up by id at an offset the index gives.
*/
module Query {
  import opened Wrappers
  import opened Text
  import opened CsvFile
  import opened Ast
  import opened IndexSpec

  datatype QueryError =
    | NothingSelected
    | UnknownSelectColumn(name: string)
    | UnknownWhereColumn(name: string)
    | NotAnInteger
    | EmptyFile
    | BadLine(message: string)
    | WrongFieldCount
    | LookupFailed(error: IndexError)
    | NoMemoryLeft

  datatype Answer = Rows(rows: seq<seq<string>>) | Failed(error: QueryError)

  /** The virtual column that stands for the internal id. */
  const INTERNAL_ID := -1

  // ----- Projection ----------------------------------------------------------

  /** The schema position of each selected name, `INTERNAL_ID` for `id`; nothing after an unknown name. */
  function Positions(names: seq<string>, schemaColumns: seq<string>): (r: Result<seq<int>>)
    ensures r.Ok? ==> |r.value| == |names|
    ensures r.Ok? ==> forall i :: 0 <= i < |names| ==> -1 <= r.value[i] < |schemaColumns|
    ensures r.Ok? ==> forall i :: 0 <= i < |names| ==>
      if names[i] == "id" then r.value[i] == INTERNAL_ID else r.value[i] >= 0 && schemaColumns[r.value[i]] == names[i]
    ensures r.Err? ==> r.message in names && r.message != "id" && r.message !in schemaColumns
  {
    if names == [] then Ok([])
    else
      var last := |names| - 1;
      match Positions(names[..last], schemaColumns)
      case Err(name) => Err(name)
      case Ok(before) =>
        if names[last] == "id" then Ok(before + [INTERNAL_ID])
        else if names[last] in schemaColumns then Ok(before + [FirstIndex(schemaColumns, names[last])])
        else Err(names[last])
  }

  function Selection(statement: SelectStatement, schema: Schema): Result<seq<int>> {
    if statement.selectAll then Ok(seq(|schema.columns|, i => i)) else Positions(statement.columns, schema.columns)
  }

  lemma {:induction false} PositionsFailEarly(names: seq<string>, schemaColumns: seq<string>, k: nat)
    requires k <= |names| && Positions(names[..k], schemaColumns).Err?
    ensures Positions(names, schemaColumns) == Positions(names[..k], schemaColumns)
    decreases |names|
  {
    if k == |names| {
      assert names[..k] == names;
    } else {
      assert names[..|names| - 1][..k] == names[..k];
      PositionsFailEarly(names[..|names| - 1], schemaColumns, k);
    }
  }

  predicate Known(name: string, schemaColumns: seq<string>) {
    name == "id" || name in schemaColumns
  }

  /** How many names are resolved before the first unknown one. */
  function Resolved(names: seq<string>, schemaColumns: seq<string>): (n: nat)
    ensures n <= |names| && (forall i :: 0 <= i < n ==> Known(names[i], schemaColumns))
    ensures n < |names| ==> !Known(names[n], schemaColumns)
  {
    if names == [] || !Known(names[0], schemaColumns) then 0 else 1 + Resolved(names[1..], schemaColumns)
  }

  /** How many slots of `selected_indexes` are written, one for each name that is resolved. */
  function SlotsWritten(statement: SelectStatement, schema: Schema): nat {
    if statement.selectAll then |schema.columns| else Resolved(statement.columns, schema.columns)
  }

  /** Resolving all names of a list succeeds when every one of them is known. */
  lemma ResolvedIsWhole(names: seq<string>, schemaColumns: seq<string>, n: nat)
    requires n <= |names| && (forall i :: 0 <= i < n ==> Known(names[i], schemaColumns))
    requires n < |names| ==> !Known(names[n], schemaColumns)
    ensures Resolved(names, schemaColumns) == n
  {
  }

  /**
    `execute_select` allocates one slot per schema column. Every write stays inside
    them if and only if all columns are selected, or the list is no longer than the
    schema, or one of its first |schema| + 1 names is unknown.
  */
  lemma SlotsSuffice(statement: SelectStatement, schema: Schema)
    ensures SlotsWritten(statement, schema) <= |schema.columns| <==>
      || statement.selectAll
      || |statement.columns| <= |schema.columns|
      || exists i :: 0 <= i <= |schema.columns| && i < |statement.columns|
                     && !Known(statement.columns[i], schema.columns)
  {
    if !statement.selectAll {
      var n := Resolved(statement.columns, schema.columns);
      if n <= |schema.columns| < |statement.columns| {
        assert !Known(statement.columns[n], schema.columns);
      }
    }
  }

  /** SELECT id, name on a table whose only column is `name` writes a second slot where one was allocated. */
  lemma TooManySlots()
    ensures var schema := Schema("t", ["name"]);
      && Selection(SelectStatement("t", ["id", "name"], false, None), schema) == Ok([INTERNAL_ID, 0])
      && SlotsWritten(SelectStatement("t", ["id", "name"], false, None), schema) == 2 > |schema.columns|
  {
    var schema, names := Schema("t", ["name"]), ["id", "name"];
    ResolvedIsWhole(names, schema.columns, 2);
    var r := Positions(names, schema.columns);
    assert names[..1] == ["id"] && ["id"][..0] == [];
    assert Positions([], schema.columns) == Ok([]);
    assert FirstIndex(schema.columns, "name") == 0;
    assert r.Ok? && r.value == [INTERNAL_ID, 0];
  }

  /**
    `build_select_indexes`, with an index array as long as the SELECT list; `slots` is
    how much of it the loop has written when it ends.
  */
  method BuildSelectIndexes(statement: SelectStatement, schema: Schema) returns (r: Result<seq<int>>, ghost slots: nat)
    ensures r == Selection(statement, schema) && slots == SlotsWritten(statement, schema)
  {
    if !statement.selectAll {
      r, slots := ResolveNames(statement.columns, schema.columns);
      return;
    }
    var selected: seq<int> := [];
    var index := 0;
    while index < |schema.columns|
      invariant index <= |schema.columns| && selected == seq(index, i => i)
    {
      selected := selected + [index];
      index := index + 1;
    }
    r, slots := Ok(selected), |selected|;
  }

  lemma PositionsOfNone(schemaColumns: seq<string>)
    ensures Positions([], schemaColumns) == Ok([])
  {
  }

  lemma PositionsStep(names: seq<string>, schemaColumns: seq<string>, k: nat)
    requires k < |names| && Positions(names[..k], schemaColumns).Ok?
    ensures var before := Positions(names[..k], schemaColumns).value;
      Positions(names[..k + 1], schemaColumns) ==
        if names[k] == "id" then Ok(before + [INTERNAL_ID])
        else if names[k] in schemaColumns then Ok(before + [FirstIndex(schemaColumns, names[k])])
        else Err(names[k])
  {
    assert names[..k + 1][..k] == names[..k];
  }

  /** Its loop over a list of names. */
  method ResolveNames(names: seq<string>, schemaColumns: seq<string>) returns (r: Result<seq<int>>, ghost slots: nat)
    ensures r == Positions(names, schemaColumns) && slots == Resolved(names, schemaColumns)
  {
    hide Resolved, Positions;
    PositionsOfNone(schemaColumns);
    var selected: seq<int> := [];
    var index := 0;
    assert names[..0] == [];
    while index < |names|
      invariant index <= |names| && Positions(names[..index], schemaColumns) == Ok(selected)
      invariant forall i :: 0 <= i < index ==> Known(names[i], schemaColumns)
    {
      PositionsStep(names, schemaColumns, index);
      if names[index] == "id" {
        selected := selected + [INTERNAL_ID];
      } else {
        var schemaIndex := IndexOf(schemaColumns, names[index]);
        if schemaIndex < 0 {
          PositionsFailEarly(names, schemaColumns, index + 1);
          ResolvedIsWhole(names, schemaColumns, index);
          return Err(names[index]), |selected|;
        }
        selected := selected + [schemaIndex];
      }
      index := index + 1;
    }
    ResolvedIsWhole(names, schemaColumns, index);
    assert names[..index] == names;
    r, slots := Ok(selected), |selected|;
  }

  predicate InRange(selected: seq<int>, width: nat) {
    forall i :: 0 <= i < |selected| ==> -1 <= selected[i] < width
  }

  function Cell(fields: seq<string>, position: int, id: int): string
    requires -1 <= position < |fields|
  {
    if position == INTERNAL_ID then Decimal(id) else fields[position]
  }

  /** The output row for the row with this id. */
  function Project(fields: seq<string>, selected: seq<int>, id: int): (row: seq<string>)
    requires InRange(selected, |fields|)
    ensures |row| == |selected| && forall i :: 0 <= i < |row| ==> row[i] == Cell(fields, selected[i], id)
  {
    seq(|selected|, i requires 0 <= i < |selected| => Cell(fields, selected[i], id))
  }

  /** `select_row_buffer_push`: appends the selected cells of one row. */
  method PushSelected(buffer: seq<seq<string>>, fields: seq<string>, selected: seq<int>, id: int)
    returns (buffer': seq<seq<string>>)
    requires InRange(selected, |fields|)
    ensures buffer' == buffer + [Project(fields, selected, id)]
  {
    var row: seq<string> := [];
    var index := 0;
    while index < |selected|
      invariant index <= |selected| && row == Project(fields, selected, id)[..index]
    {
      if selected[index] == INTERNAL_ID {
        row := row + [Decimal(id)];
      } else {
        row := row + [fields[selected[index]]];
      }
      index := index + 1;
    }
    assert Project(fields, selected, id)[..index] == Project(fields, selected, id);
    buffer' := buffer + [row];
  }

  // ----- Linear SELECT -------------------------------------------------------

  /** An ordinary WHERE: the position of its column and the text to compare with. */
  datatype Filter = All | Equals(position: nat, value: string)

  predicate Matches(filter: Filter, fields: seq<string>)
    requires filter.Equals? ==> filter.position < |fields|
  {
    filter.All? || fields[filter.position] == filter.value
  }

  /** The answer from the rows of a scan, the first of which has id `id`. */
  function LinearFrom(scan: Scan, width: nat, filter: Filter, selected: seq<int>, id: int): Answer
    requires InRange(selected, width) && (filter.Equals? ==> filter.position < width)
    decreases |scan.rows|
  {
    if scan.rows == [] then
      if scan.error.Some? then Failed(BadLine(scan.error.value)) else Rows([])
    else
      var fields := scan.rows[0].fields;
      if |fields| != width then Failed(WrongFieldCount)
      else
        match LinearFrom(Scan(scan.rows[1..], scan.error), width, filter, selected, id + 1)
        case Failed(error) => Failed(error)
        case Rows(rest) => Rows((if Matches(filter, fields) then [Project(fields, selected, id)] else []) + rest)
  }

  function LinearSelect(bytes: string, width: nat, filter: Filter, selected: seq<int>): Answer
    requires InRange(selected, width) && (filter.Equals? ==> filter.position < width)
  {
    if bytes == "" then Failed(EmptyFile) else LinearFrom(ScanFile(bytes), width, filter, selected, 1)
  }

  // ----- SELECT by id --------------------------------------------------------

  /** What the index path answers for an id, given the offsets the index holds. */
  function IndexSelect(offsets: map<int, int>, bytes: string, width: nat, selected: seq<int>, id: int): Answer
    requires InRange(selected, width)
  {
    if id !in offsets then Rows([])
    else
      match ReadRowAt(bytes, offsets[id])
      case Err(message) => Failed(BadLine(message))
      case Ok(fields) =>
        if |fields| != width then Failed(WrongFieldCount) else Rows([Project(fields, selected, id)])
  }

  // ----- The two paths agree -------------------------------------------------

  /** An unfiltered linear SELECT that succeeds gives one output row per data row, numbered in order. */
  lemma {:induction false} LinearIsAllRows(scan: Scan, width: nat, selected: seq<int>, id: int)
    requires InRange(selected, width)
    ensures LinearFrom(scan, width, All, selected, id).Rows? <==> (
      scan.error.None? && forall i :: 0 <= i < |scan.rows| ==> |scan.rows[i].fields| == width)
    ensures LinearFrom(scan, width, All, selected, id).Rows? ==>
      var rows := LinearFrom(scan, width, All, selected, id).rows;
      && |rows| == |scan.rows|
      && forall i :: 0 <= i < |rows| ==> rows[i] == Project(scan.rows[i].fields, selected, id + i)
    decreases |scan.rows|
  {
    hide Project, InRange;
    if scan.rows != [] {
      var rest := Scan(scan.rows[1..], scan.error);
      LinearIsAllRows(rest, width, selected, id + 1);
      assert forall i :: 0 < i < |scan.rows| ==> scan.rows[i] == rest.rows[i - 1];
    }
  }

  /** The positions from `i` on of the rows whose cell at `position` is `value`, in order. */
  function Hits(rows: seq<Row>, position: nat, value: string, i: nat): (h: seq<nat>)
    requires i <= |rows| && forall j :: 0 <= j < |rows| ==> position < |rows[j].fields|
    ensures forall k :: 0 <= k < |h| ==> i <= h[k] < |rows|
    decreases |rows| - i
  {
    if i == |rows| then []
    else if rows[i].fields[position] == value then [i] + Hits(rows, position, value, i + 1)
    else Hits(rows, position, value, i + 1)
  }

  /** The hits are exactly the rows whose cell is that value, each once and in increasing order. */
  lemma {:induction false} HitsAreExact(rows: seq<Row>, position: nat, value: string, i: nat)
    requires i <= |rows| && forall j :: 0 <= j < |rows| ==> position < |rows[j].fields|
    ensures forall j :: j in Hits(rows, position, value, i) <==> i <= j < |rows| && rows[j].fields[position] == value
    ensures Increasing(Hits(rows, position, value, i))
    decreases |rows| - i
  {
    if i < |rows| {
      HitsAreExact(rows, position, value, i + 1);
    }
  }

  predicate Increasing(s: seq<int>) {
    forall k, l :: 0 <= k < l < |s| ==> s[k] < s[l]
  }

  function Pick(all: seq<seq<string>>, hits: seq<nat>): seq<seq<string>>
    requires forall k :: 0 <= k < |hits| ==> hits[k] < |all|
  {
    seq(|hits|, k requires 0 <= k < |hits| => all[hits[k]])
  }

  /**
    WHERE column = value shows exactly those rows of the unfiltered SELECT whose cell
    is that value, in order; it fails when that SELECT fails, and with the same error.
  */
  lemma FilterPicksRows(bytes: string, width: nat, position: nat, value: string, selected: seq<int>)
    requires InRange(selected, width) && position < width
    ensures var rows, all := ScanFile(bytes).rows, LinearSelect(bytes, width, All, selected);
      var picked := LinearSelect(bytes, width, Equals(position, value), selected);
      if all.Failed? then picked == all
      else
        && |all.rows| == |rows| && (forall j :: 0 <= j < |rows| ==> |rows[j].fields| == width)
        && picked == Rows(Pick(all.rows, Hits(rows, position, value, 0)))
  {
    var scan, all := ScanFile(bytes), LinearSelect(bytes, width, All, selected);
    LinearIsAllRows(scan, width, selected, 1);
    if all.Rows? {
      FilterFrom(scan.rows, all.rows, width, position, value, selected, 0);
      assert scan.rows[0..] == scan.rows;
    } else {
      FailsAlike(scan, width, Equals(position, value), selected, 1);
    }
  }

  /** A scanning SELECT that fails blames the width of a row it got to, or else the line it cannot parse. */
  lemma {:induction false} LinearFailure(scan: Scan, width: nat, selected: seq<int>, id: int)
    requires InRange(selected, width) && LinearFrom(scan, width, All, selected, id).Failed?
    ensures LinearFrom(scan, width, All, selected, id) == Failed(
      if exists i :: 0 <= i < |scan.rows| && |scan.rows[i].fields| != width then WrongFieldCount
      else BadLine(if scan.error.Some? then scan.error.value else ""))
    decreases |scan.rows|
  {
    hide Project;
    if scan.rows != [] && |scan.rows[0].fields| == width {
      var rest := Scan(scan.rows[1..], scan.error);
      LinearFailure(rest, width, selected, id + 1);
      assert forall i :: 0 < i < |scan.rows| ==> scan.rows[i] == rest.rows[i - 1];
      assert forall i :: 0 <= i < |rest.rows| ==> rest.rows[i] == scan.rows[i + 1];
    }
  }

  /** What makes a scanning SELECT fail has nothing to do with its filter. */
  lemma {:induction false} FailsAlike(scan: Scan, width: nat, filter: Filter, selected: seq<int>, id: int)
    requires InRange(selected, width) && (filter.Equals? ==> filter.position < width)
    requires LinearFrom(scan, width, All, selected, id).Failed?
    ensures LinearFrom(scan, width, filter, selected, id) == LinearFrom(scan, width, All, selected, id)
    decreases |scan.rows|
  {
    hide Project;
    if scan.rows != [] && |scan.rows[0].fields| == width {
      FailsAlike(Scan(scan.rows[1..], scan.error), width, filter, selected, id + 1);
    }
  }

  lemma {:induction false} FilterFrom(rows: seq<Row>, all: seq<seq<string>>, width: nat, position: nat, value: string,
                                      selected: seq<int>, i: nat)
    requires InRange(selected, width) && position < width && i <= |rows| == |all|
    requires forall j :: 0 <= j < |rows| ==> |rows[j].fields| == width
    requires forall j :: 0 <= j < |rows| ==> all[j] == Project(rows[j].fields, selected, 1 + j)
    ensures LinearFrom(Scan(rows[i..], None), width, Equals(position, value), selected, 1 + i) ==
      Rows(Pick(all, Hits(rows, position, value, i)))
    decreases |rows| - i
  {
    hide *;
    FilterStep(rows, width, position, value, selected, i);
    if i < |rows| {
      FilterFrom(rows, all, width, position, value, selected, i + 1);
      PickStep(rows, all, position, value, i);
    } else {
      PickNone(rows, all, position, value);
    }
  }

  lemma FilterStep(rows: seq<Row>, width: nat, position: nat, value: string, selected: seq<int>, i: nat)
    requires InRange(selected, width) && position < width && i <= |rows|
    requires forall j :: 0 <= j < |rows| ==> |rows[j].fields| == width
    ensures var here := LinearFrom(Scan(rows[i..], None), width, Equals(position, value), selected, 1 + i);
      if i == |rows| then here == Rows([])
      else
        var rest := LinearFrom(Scan(rows[i + 1..], None), width, Equals(position, value), selected, 2 + i);
        rest.Rows? ==> here == Rows(
          (if rows[i].fields[position] == value then [Project(rows[i].fields, selected, 1 + i)] else []) + rest.rows)
  {
    hide Project;
    assert i < |rows| ==> rows[i..][1..] == rows[i + 1..];
  }

  lemma PickStep(rows: seq<Row>, all: seq<seq<string>>, position: nat, value: string, i: nat)
    requires i < |rows| == |all| && forall j :: 0 <= j < |rows| ==> position < |rows[j].fields|
    ensures Pick(all, Hits(rows, position, value, i)) ==
      (if rows[i].fields[position] == value then [all[i]] else []) + Pick(all, Hits(rows, position, value, i + 1))
  {
    hide Pick;
    var rest := Hits(rows, position, value, i + 1);
    assert [] + Pick(all, rest) == Pick(all, rest);
    PickFirst(all, i, rest);
  }

  lemma PickFirst(all: seq<seq<string>>, first: nat, rest: seq<nat>)
    requires first < |all| && forall k :: 0 <= k < |rest| ==> rest[k] < |all|
    ensures Pick(all, [first] + rest) == [all[first]] + Pick(all, rest)
  {
  }

  lemma PickNone(rows: seq<Row>, all: seq<seq<string>>, position: nat, value: string)
    requires forall j :: 0 <= j < |rows| ==> position < |rows[j].fields|
    ensures Hits(rows, position, value, |rows|) == [] && Pick(all, []) == []
  {
  }

  /**
    WHERE id = k on an index of the file finds exactly what the unfiltered linear
    SELECT shows for id k: that one row, or nothing when there is no such id.
  */
  lemma IndexRefinesLinear(bytes: string, width: nat, selected: seq<int>, id: int)
    requires InRange(selected, width) && LinearSelect(bytes, width, All, selected).Rows?
    ensures var all := LinearSelect(bytes, width, All, selected).rows;
      IndexSelect(OffsetMap(ScanFile(bytes).rows), bytes, width, selected, id) ==
        Rows(if 1 <= id <= |all| then [all[id - 1]] else [])
  {
    var scan := ScanFile(bytes);
    LinearIsAllRows(scan, width, selected, 1);
    if 1 <= id <= |scan.rows| {
      OffsetsLeadToRows(bytes, LineEndAt(bytes, 0), id - 1);
      assert OffsetOf(scan.rows, id) == scan.rows[id - 1].offset;
    }
  }

  /** The index path needs less than the linear one: only the row it returns must have the right width. */
  lemma IndexSelectSucceeds(bytes: string, width: nat, selected: seq<int>, id: int)
    requires InRange(selected, width) && ScanFile(bytes).error.None?
    ensures var rows := ScanFile(bytes).rows;
      IndexSelect(OffsetMap(rows), bytes, width, selected, id) ==
        if id < 1 || |rows| < id then Rows([])
        else if |rows[id - 1].fields| != width then Failed(WrongFieldCount)
        else Rows([Project(rows[id - 1].fields, selected, id)])
  {
    var rows := ScanFile(bytes).rows;
    if 1 <= id <= |rows| {
      OffsetsLeadToRows(bytes, LineEndAt(bytes, 0), id - 1);
      assert OffsetOf(rows, id) == rows[id - 1].offset;
    }
  }

  /** A printed id is a usable key: it is read back as the same integer and selects the row it was printed for. */
  lemma PrintedIdIsUsable(bytes: string, width: nat, selected: seq<int>, i: nat, c: nat)
    requires InRange(selected, width) && LinearSelect(bytes, width, All, selected).Rows?
    requires i < |LinearSelect(bytes, width, All, selected).rows| <= INT_MAX
    requires c < |selected| && selected[c] == INTERNAL_ID
    ensures var all := LinearSelect(bytes, width, All, selected).rows;
      && c < |all[i]| && ParseIntStrict(all[i][c]) == Some(i + 1)
      && IndexSelect(OffsetMap(ScanFile(bytes).rows), bytes, width, selected, i + 1) == Rows([all[i]])
  {
    LinearIsAllRows(ScanFile(bytes), width, selected, 1);
    DecimalReadBack(i + 1);
    IndexRefinesLinear(bytes, width, selected, i + 1);
  }
}
