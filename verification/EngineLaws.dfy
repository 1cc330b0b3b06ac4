/** What one INSERT or SELECT of the executor does to cache and file: outcomes, exact agreement, recovery, answers. */
module EngineLaws {
  import opened Wrappers
  import opened Text
  import opened CsvCodec
  import opened CsvFile
  import opened Ast
  import opened BTreeModel
  import opened IndexSpec
  import opened RowBuilder
  import opened Query
  import opened Engine

  ghost predicate Scans(s: State, name: string) {
    name in s.files && ScanFile(s.files[name]).error.None?
  }

  ghost function RowsOf(s: State, name: string): seq<Row>
    requires name in s.files
  {
    ScanFile(s.files[name]).rows
  }

  /** The data row an INSERT that writes `row` adds to a table. */
  ghost function NewRow(s: State, name: string, row: seq<string>): Row
    requires name in s.files
  {
    Row(AppendOffset(s.files[name]), NormRow(row))
  }

  /** Tables other than `name` are as they were. */
  ghost predicate OthersUnchanged(s: State, s': State, name: string) {
    && (forall other :: other != name ==> FileOf(s', other) == FileOf(s, other))
    && forall other :: other != name ==>
         (other in s'.entries <==> other in s.entries) && EntryOf(s', other) == EntryOf(s, other)
  }

  // ----- Using the index -----------------------------------------------------

  /** Memory for other things lasts from the loading of the index on. */
  ghost predicate Unhalted(s: State, name: string, supply: Supply) {
    !supply.halt.AfterLoad? && !HaltsLoad(s.entries, name, FileOf(s, name), supply.halt)
  }

  /** A statement gets to use the index: it is loaded, or the file scans and there is memory for the whole tree. */
  ghost predicate CanUse(s: State, name: string, supply: Supply)
    requires name in s.files
  {
    && Unhalted(s, name, supply)
    && (EntryOf(s, name).loaded || (Scans(s, name) && supply.nodes >= Nodes(TreeOf(RowsOf(s, name)))))
  }

  /** The entry a statement finds or loads, and the node allocations that are left then. */
  lemma LoadsExactly(s: State, name: string, supply: Supply)
    requires SoundState(s) && name in s.files
    ensures var (s1, load) := LoadFor(s, name, supply);
      && (load.error.None? && !supply.halt.AfterLoad? <==> CanUse(s, name, supply))
      && (load.error.None? ==>
            if EntryOf(s, name).loaded then load == Load(EntryOf(s, name), None, supply.nodes)
            else
              var cost := Nodes(TreeOf(RowsOf(s, name)));
              && Scans(s, name) && supply.nodes >= cost
              && load == Load(Loaded(RowsOf(s, name)), None, supply.nodes - cost))
  {
    hide Rebuild, ScanFile, TreeOf, Nodes;
    RebuildGivesLoaded(FileOf(s, name), supply.nodes);
  }

  /** A loaded entry is used as it is. */
  lemma LoadedIsUsed(s: State, name: string, supply: Supply)
    requires EntryOf(s, name).loaded
    ensures LoadFor(s, name, supply) == (s, Load(EntryOf(s, name), None, supply.nodes))
  {
    assert s.entries[name := s.entries[name]] == s.entries;
  }

  // ----- One INSERT ----------------------------------------------------------

  /** What of the row is in the file. */
  function WrittenPart(row: seq<string>, outcome: InsertOutcome): seq<string> {
    if outcome.AppendCut? && outcome.fields <= |row| then row[..outcome.fields] else row
  }

  /**
    The state once the row is in the file: registered, or failed and invalidated; or,
    with only a part of the row in the file, failed with the entry still loaded.
  */
  ghost predicate AppendedState(s: State, s': State, name: string, row: seq<string>, outcome: InsertOutcome)
    requires name in s.files
  {
    && s'.files == s.files[name := Appended(s.files[name], WrittenPart(row, outcome))]
    && name in s'.entries
    && match outcome
       case RowInserted => s'.entries[name] == Loaded(RowsOf(s, name) + [NewRow(s, name, row)])
       case IndexFailed(_) => s'.entries[name] == UNLOADED
       case AppendCut(k) => k < |row| && s'.entries[name] == Loaded(RowsOf(s, name))
       case _ => false
  }

  /** The node allocations by which the tree grows when this row is registered. */
  ghost function RegisterCost(s: State, name: string, row: seq<string>): int
    requires name in s.files
  {
    Nodes(TreeOf(RowsOf(s, name) + [NewRow(s, name, row)])) - Nodes(TreeOf(RowsOf(s, name)))
  }

  lemma RegisteredOutcome(s: State, name: string, load: Load, row: seq<string>, fields: nat)
    requires Scans(s, name) && load.entry == Loaded(RowsOf(s, name))
    requires name in s.entries && s.entries[name] == load.entry
    ensures Sound(load.entry)
    ensures var (s', outcome) := AppendAndRegister(s, name, load, row, fields);
      && AppendedState(s, s', name, row, outcome) && OthersUnchanged(s, s', name)
      && (outcome.AppendCut? <==> fields < |row|) && (outcome.AppendCut? ==> outcome.fields == fields)
      && (outcome.RowInserted? <==> |row| <= fields && !s.forced && load.left >= RegisterCost(s, name, row))
  {
    hide TreeOf, Nodes, ScanFile, Appended, AppendOffset, NormRow, Sound, RegisterIn;
    RegisterNextRow(RowsOf(s, name), NewRow(s, name, row), load.left);
  }

  /** Outcomes after which something was written. */
  predicate Wrote(s: State, s': State, outcome: InsertOutcome) {
    s'.files != s.files || outcome.RowInserted? || outcome.AppendCut?
  }

  /** The INSERT has a row, a file, memory and an index, and so gets as far as the append. */
  ghost predicate Reaches(s: State, schema: Schema, stmt: InsertStatement, supply: Supply) {
    && !supply.halt.AtStart? && schema.storageName in s.files && RowOf(schema, stmt).Some?
    && CanUse(s, schema.storageName, supply)
  }

  /** Node allocations left for the registration. */
  ghost function LeftToRegister(s: State, name: string, supply: Supply): int
    requires name in s.files
  {
    if EntryOf(s, name).loaded then supply.nodes else supply.nodes - Nodes(TreeOf(RowsOf(s, name)))
  }

  /** Once there, the registration succeeds: it is not forced to fail, and the tree can grow. */
  ghost predicate Registers(s: State, schema: Schema, stmt: InsertStatement, supply: Supply)
    requires schema.storageName in s.files && RowOf(schema, stmt).Some?
  {
    var name := schema.storageName;
    !s.forced && LeftToRegister(s, name, supply) >= RegisterCost(s, name, RowOf(schema, stmt).value)
  }

  /**
    Every INSERT leaves the files alone, its entry in agreement; or it appends exactly
    its row and ends registered with the tree a rebuild would give; or it appends its
    row, reports failure and leaves the entry unloaded; or memory ran out in mid-row,
    and then a part of the row is in the file while the entry stays loaded without it.
    Which of these it is can be told beforehand.
  */
  lemma InsertOutcomes(s: State, schema: Schema, stmt: InsertStatement, supply: Supply)
    requires SoundState(s) && AgreesAt(s, schema.storageName) && schema.Valid()
    ensures var (s', outcome) := ExecInsert(s, schema, stmt, supply);
      var name := schema.storageName;
      && OthersUnchanged(s, s', name)
      && (Wrote(s, s', outcome) <==> Reaches(s, schema, stmt, supply))
      && (outcome.RowInserted? ==> s'.files != s.files)
      && if Reaches(s, schema, stmt, supply) then
           var row := RowOf(schema, stmt).value;
           && Scans(s, name) && AppendedState(s, s', name, row, outcome)
           && (outcome.AppendCut? <==> supply.fields < |row|)
           && (outcome.AppendCut? ==> outcome.fields == supply.fields)
           && (outcome.RowInserted? <==> |row| <= supply.fields && Registers(s, schema, stmt, supply))
         else AgreesAt(s', name)
  {
    hide ScanFile, ExecInsert, TreeOf, AppendAndRegister, Appended, RegisterIn, Rebuild, LoadFor, CanUse, NormRow;
    hide AppendedState, Loaded, RowOf, Sound, Nodes;
    var name := schema.storageName;
    InsertPath(s, schema, stmt, supply);
    LoadForTouchesOne(s, name, supply);
    if Reaches(s, schema, stmt, supply) {
      LoadsExactly(s, name, supply);
      var (s1, load) := LoadFor(s, name, supply);
      var row := RowOf(schema, stmt).value;
      assert Scans(s1, name) && load.entry == Loaded(RowsOf(s1, name));
      RegisteredOutcome(s1, name, load, row, supply.fields);
      var (s', outcome) := ExecInsert(s, schema, stmt, supply);
      AppendedStateChain(s, s1, s', name, row, outcome);
    } else if name in s.files {
      LoadsExactly(s, name, supply);
    }
  }

  /** An INSERT stops before or after loading the index, or goes on to append and register its row. */
  lemma InsertPath(s: State, schema: Schema, stmt: InsertStatement, supply: Supply)
    requires SoundState(s) && schema.Valid()
    ensures var name, row := schema.storageName, RowOf(schema, stmt);
      var (s1, load) := LoadFor(s, name, supply);
      var (s', outcome) := ExecInsert(s, schema, stmt, supply);
      if row.Some? && load.error.None? && name in s.files && !supply.halt.AtStart? && !supply.halt.AfterLoad? then
        && row.value != [] && Sound(load.entry) && load.entry.loaded
        && (s', outcome) == AppendAndRegister(s1, name, load, row.value, supply.fields)
      else
        !outcome.RowInserted? && !outcome.AppendCut? && (s' == s || s' == s1)
  {
    hide LoadFor, AppendAndRegister, Sound;
    LoadForTouchesOne(s, schema.storageName, supply);
    if !supply.halt.AtStart? && ValidationError(stmt.columns, stmt.values, schema.columns).None? {
      if LoadFor(s, schema.storageName, supply).1.error.None? && !supply.halt.AfterLoad? {
        assert BuildRow(stmt.columns, stmt.values, schema.columns).0.None? <==> RowOf(schema, stmt).Some?;
      }
    }
  }

  /** Loading the index first makes no difference to what the append leaves behind; a whole row is something. */
  lemma AppendedStateChain(s: State, s1: State, s': State, name: string, row: seq<string>, outcome: InsertOutcome)
    requires name in s.files && s1.files == s.files && AppendedState(s1, s', name, row, outcome) && row != []
    ensures AppendedState(s, s', name, row, outcome) && Wrote(s, s', outcome)
    ensures outcome.RowInserted? ==> s'.files != s.files
  {
    hide ScanFile, TreeOf;
    AppendedIsLonger(s.files[name], row);
  }

  lemma AppendedIsLonger(bytes: string, row: seq<string>)
    ensures row != [] ==> Appended(bytes, row) != bytes
  {
  }

  /** Agreement of everything but one table carries over when only that table changes. */
  lemma OthersStayConsistent(s: State, s': State, name: string)
    requires Consistent(s) && OthersUnchanged(s, s', name)
    ensures Consistent(s') <==> AgreesAt(s', name)
  {
    hide Agrees;
    UnloadedIsFine(FileOf(s', name));
    forall other | other in s'.entries && other != name ensures AgreesAt(s', other) {
      assert AgreesAt(s, other);
    }
  }

  /** When the written row fits one line buffer, the file then scans to the old rows and the new one. */
  lemma AppendedFileScans(s: State, name: string, row: seq<string>)
    requires Scans(s, name) && row != [] && OneLineRow(row) && |EncodeRow(row)| <= LINE_MAX
    ensures ScanFile(Appended(s.files[name], row)) == Scan(RowsOf(s, name) + [NewRow(s, name, row)], None)
  {
    AppendThenScan(s.files[name], row);
  }

  /** An append cut short leaves the rows what they were if and only if no field of the new row was written. */
  lemma CutAppendAgrees(s: State, name: string, row: seq<string>, k: nat)
    requires Scans(s, name) && OneLineRow(row) && k <= |row|
    ensures Agrees(Loaded(RowsOf(s, name)), Some(Appended(s.files[name], row[..k]))) <==> k == 0
    ensures k > 0 ==> Behind(Loaded(RowsOf(s, name)), Some(Appended(s.files[name], row[..k])))
  {
    hide TreeOf, Appended, ScanFile;
    ScannedHasHeader(s.files[name]);
    AppendedIsNotEmpty(s.files[name], row[..k]);
    CutAppendScans(s.files[name], row, k);
  }

  /** The file holds more than the loaded entry knows, or does not scan any more. */
  ghost predicate Behind(e: TableEntry, file: Option<string>) {
    && e.loaded && file.Some? && file.value != ""
    && var scan := ScanFile(file.value); scan.error.Some? || |scan.rows| >= e.nextId
  }

  lemma BehindDisagrees(e: TableEntry, file: Option<string>)
    requires Behind(e, file)
    ensures !Agrees(e, file)
  {
  }

  ghost predicate BehindAt(s: State, name: string) {
    Behind(EntryOf(s, name), FileOf(s, name))
  }

  /**
    Agreement after an INSERT, by its outcome: a row inserted must fit the 4095 bytes
    that one `fgets` reads, one cut off must have no field in the file, and all else
    keeps it. Where agreement is lost the index has fallen behind the file.
  */
  lemma AgreementByOutcome(s: State, schema: Schema, stmt: InsertStatement, supply: Supply)
    requires SoundState(s) && AgreesAt(s, schema.storageName) && schema.Valid() && CStrings(stmt)
    ensures var (s', outcome) := ExecInsert(s, schema, stmt, supply);
      && (AgreesAt(s', schema.storageName) <==>
            if outcome.RowInserted? then Short(schema, stmt)
            else if outcome.AppendCut? then outcome.fields == 0
            else true)
      && (AgreesAt(s', schema.storageName) || BehindAt(s', schema.storageName))
  {
    hide ScanFile, ExecInsert, TreeOf, Appended, RowOf, CanUse, Registers;
    var name := schema.storageName;
    InsertOutcomes(s, schema, stmt, supply);
    var (s', outcome) := ExecInsert(s, schema, stmt, supply);
    if Wrote(s, s', outcome) {
      var row := RowOf(schema, stmt).value;
      RowOfIsOneLine(schema, stmt);
      ScannedHasHeader(s.files[name]);
      AppendedIsNotEmpty(s.files[name], row);
      if outcome.AppendCut? {
        CutAppendAgrees(s, name, row, outcome.fields);
      } else if Short(schema, stmt) {
        AppendedFileScans(s, name, row);
      } else {
        LongRowMiscounts(s.files[name], row);
      }
    }
  }

  /** This INSERT writes what one `fgets` does not read back as its row, if it writes anything. */
  predicate UnfitInsert(schema: Schema, stmt: InsertStatement, supply: Supply) {
    && !supply.halt.AtStart? && !supply.halt.AfterLoad? && RowOf(schema, stmt).Some?
    && if supply.fields < |RowOf(schema, stmt).value| then supply.fields > 0 else !Short(schema, stmt)
  }

  /** An unfit INSERT that reaches the append and, unless it is cut off there, registers its row. */
  ghost predicate LosesAgreement(s: State, schema: Schema, stmt: InsertStatement, supply: Supply) {
    && UnfitInsert(schema, stmt, supply) && Reaches(s, schema, stmt, supply)
    && (supply.fields < |RowOf(schema, stmt).value| || Registers(s, schema, stmt, supply))
  }

  /** The exact condition, on state, statement and memory, under which an INSERT keeps its table's agreement. */
  lemma InsertKeepsAgreement(s: State, schema: Schema, stmt: InsertStatement, supply: Supply)
    requires SoundState(s) && AgreesAt(s, schema.storageName) && schema.Valid() && CStrings(stmt)
    ensures AgreesAt(ExecInsert(s, schema, stmt, supply).0, schema.storageName) <==>
      !LosesAgreement(s, schema, stmt, supply)
  {
    hide ExecInsert, Registers, HaltsLoad, RowOf, Short, AppendedState, AgreesAt, TreeOf, Nodes, Scans;
    InsertOutcomes(s, schema, stmt, supply);
    AgreementByOutcome(s, schema, stmt, supply);
  }

  /**
    In a consistent state: an INSERT that writes its row leaves cache and file in
    agreement if and only if the row fits the line buffer; one that runs out of memory
    in mid-row if and only if it has written no field yet; every other one does.
  */
  lemma InsertKeepsConsistent(s: State, schema: Schema, stmt: InsertStatement, supply: Supply)
    requires Consistent(s) && schema.Valid() && CStrings(stmt)
    ensures SoundState(s)
    ensures Consistent(ExecInsert(s, schema, stmt, supply).0) <==> !LosesAgreement(s, schema, stmt, supply)
    ensures var (s', outcome) := ExecInsert(s, schema, stmt, supply);
      Consistent(s') <==>
        if outcome.RowInserted? then Short(schema, stmt)
        else if outcome.AppendCut? then supply.fields == 0
        else true
  {
    hide ExecInsert, Consistent, SoundState, LosesAgreement, Short, Reaches, Registers, AppendedState, RowOf;
    var name := schema.storageName;
    ConsistentIsSound(s);
    ConsistentAt(s, name);
    InsertOutcomes(s, schema, stmt, supply);
    AgreementByOutcome(s, schema, stmt, supply);
    InsertKeepsAgreement(s, schema, stmt, supply);
    OthersStayConsistent(s, ExecInsert(s, schema, stmt, supply).0, name);
  }

  lemma ConsistentAt(s: State, name: string)
    requires Consistent(s)
    ensures AgreesAt(s, name)
  {
    UnloadedIsFine(FileOf(s, name));
  }

  lemma ScannedHasHeader(bytes: string)
    requires ScanFile(bytes).error.None?
    ensures bytes != ""
  {
  }

  lemma AppendedIsNotEmpty(bytes: string, row: seq<string>)
    ensures bytes != "" ==> Appended(bytes, row) != ""
  {
  }

  // ----- An index that has fallen behind -------------------------------------

  lemma BehindAfterPart(e: TableEntry, bytes: string, part: seq<string>)
    requires Behind(e, Some(bytes))
    ensures Behind(e, Some(Appended(bytes, part)))
  {
    hide ScanFile, Appended;
    AppendedIsNotEmpty(bytes, part);
    AppendKeepsRows(bytes, part);
    if ScanFile(bytes).error.Some? {
      ErrorsStay(bytes, part);
    }
  }

  lemma BehindAfterRow(e: TableEntry, bytes: string, row: seq<string>, e': TableEntry)
    requires Behind(e, Some(bytes)) && row != [] && OneLineRow(row) && e'.loaded && e'.nextId == e.nextId + 1
    ensures Behind(e', Some(Appended(bytes, row)))
  {
    hide ScanFile, Appended;
    AppendedIsNotEmpty(bytes, row);
    if ScanFile(bytes).error.Some? {
      ErrorsStay(bytes, row);
    } else if |EncodeRow(row)| <= LINE_MAX {
      AppendThenScan(bytes, row);
    } else {
      LongRowMiscounts(bytes, row);
    }
  }

  /** An index that has fallen behind stays behind through every INSERT, or is unloaded by it. */
  lemma InsertStaysBehind(s: State, schema: Schema, stmt: InsertStatement, supply: Supply)
    requires SoundState(s) && BehindAt(s, schema.storageName) && schema.Valid() && CStrings(stmt)
    ensures var s' := ExecInsert(s, schema, stmt, supply).0;
      EntryOf(s', schema.storageName).loaded ==> BehindAt(s', schema.storageName)
  {
    hide ExecInsert, LoadFor, RegisterIn, Behind, RowOf, Appended, AppendOffset, Sound;
    var name := schema.storageName;
    var e, bytes := EntryOf(s, name), FileOf(s, name);
    BehindIsLoaded(e, bytes);
    InsertPath(s, schema, stmt, supply);
    LoadedIsUsed(s, name, supply);
    if RowOf(schema, stmt).Some? {
      var row := RowOf(schema, stmt).value;
      RowOfIsOneLine(schema, stmt);
      assert Sound(e);
      RegisterAdds(e, AppendOffset(bytes.value), supply.nodes);
      var reg := RegisterIn(e, e.nextId, AppendOffset(bytes.value), supply.nodes);
      if supply.fields < |row| {
        BehindAfterPart(e, bytes.value, row[..supply.fields]);
      } else if reg.error.None? {
        BehindAfterRow(e, bytes.value, row, reg.entry);
      }
    }
  }

  lemma BehindIsLoaded(e: TableEntry, file: Option<string>)
    requires Behind(e, file)
    ensures e.loaded && file.Some? && file.value != ""
  {
  }

  /** Agreement lost in one table is regained by invalidating it, agreement lost anywhere by a reset. */
  lemma AgreementIsRestored(s: State, name: string)
    requires forall other :: other in s.entries && other != name ==> AgreesAt(s, other)
    ensures Consistent(Invalidated(s, name)) && Consistent(ResetState(s))
  {
    hide Agrees;
    var s' := Invalidated(s, name);
    UnloadedIsFine(FileOf(s', name));
    forall other | other in s'.entries && other != name ensures AgreesAt(s', other) {
      assert AgreesAt(s, other);
    }
  }

  /** An INSERT of two columns whose second field finds no memory leaves the first one in the file. */
  lemma CutInsert()
    ensures var s := State(map["t" := "a,b\n"], map[], false);
      var schema, stmt := Schema("t", ["a", "b"]), InsertStatement("t", ["a", "b"], ["1", "2"]);
      ExecInsert(s, schema, stmt, Supply(0, 1, Never)) ==
        (State(map["t" := "a,b\n1"], map["t" := Loaded([])], false), AppendCut(1))
  {
    var s := State(map["t" := "a,b\n"], map[], false);
    TwoColumnRow();
    HeaderOnly();
    assert Rebuild(Some("a,b\n"), 0) == Load(Loaded([]), None, 0);
    assert ["1", "2"][..1] == ["1"] && EncodeRow(["1"]) == "1" && Appended("a,b\n", ["1"]) == "a,b\n1";
    assert s.files["t" := "a,b\n1"] == map["t" := "a,b\n1"];
  }

  /** There cache and file part, until the table is invalidated or the registry reset. */
  lemma CutInsertLosesAgreement()
    ensures var s := State(map["t" := "a,b\n"], map[], false);
      var schema, stmt := Schema("t", ["a", "b"]), InsertStatement("t", ["a", "b"], ["1", "2"]);
      && Consistent(s) && SoundState(s)
      && var (s', outcome) := ExecInsert(s, schema, stmt, Supply(0, 1, Never));
         && outcome == AppendCut(1) && s'.files["t"] == "a,b\n1" && EntryOf(s', "t") == Loaded([])
         && !Consistent(s') && Consistent(Invalidated(s', "t")) && Consistent(ResetState(s'))
  {
    hide ExecInsert, Agrees, Loaded, ScanFile, RowOf, Invalidated, ResetState;
    var s := State(map["t" := "a,b\n"], map[], false);
    var schema, stmt := Schema("t", ["a", "b"]), InsertStatement("t", ["a", "b"], ["1", "2"]);
    CutInsert();
    TwoColumnRow();
    InsertKeepsConsistent(s, schema, stmt, Supply(0, 1, Never));
    AgreementIsRestored(ExecInsert(s, schema, stmt, Supply(0, 1, Never)).0, "t");
  }

  /** An INSERT of one value that is too long for the line buffer succeeds. */
  lemma LongInsert()
    ensures var s := State(map["t" := "name\n"], map[], false);
      var schema, stmt := Schema("t", ["name"]), InsertStatement("t", ["name"], [LONG_VALUE]);
      && CStrings(stmt) && !Short(schema, stmt)
      && var (s', outcome) := ExecInsert(s, schema, stmt, Supply(1, 1, Never));
         outcome.RowInserted? && s'.entries.Keys == {"t"}
  {
    hide ScanFile, Appended, EncodeRow, OneLineRow;
    LongRowIsCut();
    OneColumnRow(LONG_VALUE);
    assert Rebuild(Some("name\n"), 1) == Load(Loaded([]), None, 1);
  }

  /** There, too, cache and file part until the table is invalidated. */
  lemma LongInsertLosesAgreement()
    ensures var s := State(map["t" := "name\n"], map[], false);
      var schema, stmt := Schema("t", ["name"]), InsertStatement("t", ["name"], [LONG_VALUE]);
      && Consistent(s) && SoundState(s) && !Short(schema, stmt)
      && var (s', outcome) := ExecInsert(s, schema, stmt, Supply(1, 1, Never));
         outcome.RowInserted? && !Consistent(s') && Consistent(Invalidated(s', "t"))
  {
    hide ExecInsert, Agrees, ScanFile, Short, CStrings, Invalidated;
    var s := State(map["t" := "name\n"], map[], false);
    var schema, stmt := Schema("t", ["name"]), InsertStatement("t", ["name"], [LONG_VALUE]);
    LongInsert();
    InsertKeepsConsistent(s, schema, stmt, Supply(1, 1, Never));
    AgreementIsRestored(ExecInsert(s, schema, stmt, Supply(1, 1, Never)).0, "t");
  }

  lemma OneColumnRow(value: string)
    requires OneLine(value)
    ensures ValidationError(["name"], [value], ["name"]).None? && NUL !in value
    ensures BuildRow(["name"], [value], ["name"]) == (None, [value])
  {
    var columns, values := ["name"], [value];
    var r := BuildRow(columns, values, columns);
    assert FirstIndex(columns, "name") == 0;
    assert r.1[FirstIndex(columns, columns[0])] == values[0];
    assert r.1 == values && r == (None, r.1);
  }

  lemma TwoColumnRow()
    ensures var stmt := InsertStatement("t", ["a", "b"], ["1", "2"]);
      && ValidationError(stmt.columns, stmt.values, ["a", "b"]).None? && CStrings(stmt)
      && BuildRow(stmt.columns, stmt.values, ["a", "b"]) == (None, ["1", "2"])
  {
    var columns, values := ["a", "b"], ["1", "2"];
    var r := BuildRow(columns, values, columns);
    assert Distinct(columns);
    assert columns[0] in columns && columns[1] in columns;
    assert FirstIndex(columns, "a") == 0 && FirstIndex(columns, "b") == 1;
    assert r.1[FirstIndex(columns, columns[0])] == values[0] && r.1[FirstIndex(columns, columns[1])] == values[1];
    assert r.1 == values && r == (None, r.1);
  }

  lemma HeaderOnly()
    ensures ScanFile("a,b\n") == Scan([], None)
  {
    ChunkEndFirst("a,b\n", 0, LINE_MAX, 4);
  }

  /**
    Recovery: when the row was appended but could not be registered - by the forced
    flag or by any allocation failure - the INSERT reports failure, the entry is
    unloaded, and the next access that can allocate the tree finds the appended row
    under the id it would have had.
  */
  lemma FailedRegistrationRecovers(s: State, schema: Schema, stmt: InsertStatement, supply: Supply, later: nat)
    requires SoundState(s) && AgreesAt(s, schema.storageName)
    requires schema.Valid() && CStrings(stmt) && Short(schema, stmt)
    ensures var (s', outcome) := ExecInsert(s, schema, stmt, supply);
      var name := schema.storageName;
      s'.files != s.files && outcome.IndexFailed? ==>
        && !EntryOf(s', name).loaded
        && Scans(s, name) && RowOf(schema, stmt).Some?
        && var rows := RowsOf(s, name) + [NewRow(s, name, RowOf(schema, stmt).value)];
           (later >= Nodes(TreeOf(rows)) ==>
              && EnsureLoaded(EntryOf(s', name), FileOf(s', name), later).entry == Loaded(rows)
              && OffsetMap(rows)[|RowsOf(s, name)| + 1] == AppendOffset(s.files[name]))
  {
    hide TreeOf, Nodes, ScanFile, RowOf, ExecInsert, Rebuild, Registers, CanUse;
    var name := schema.storageName;
    InsertOutcomes(s, schema, stmt, supply);
    var (s', outcome) := ExecInsert(s, schema, stmt, supply);
    if s'.files != s.files && outcome.IndexFailed? {
      RowOfIsOneLine(schema, stmt);
      AppendedFileScans(s, name, RowOf(schema, stmt).value);
      RebuildGivesLoaded(FileOf(s', name), later);
      var rows := RowsOf(s, name) + [NewRow(s, name, RowOf(schema, stmt).value)];
      assert OffsetOf(rows, |RowsOf(s, name)| + 1) == AppendOffset(s.files[name]);
    }
  }

  /**
    Memory that runs out for other things either makes no difference to an INSERT or
    stops it before it writes anything, with the entry as it was or just loaded; a
    scan that breaks off leaves it unloaded, as it was before.
  */
  lemma HaltsWriteNothing(s: State, schema: Schema, stmt: InsertStatement, supply: Supply)
    requires SoundState(s)
    ensures var (s', outcome) := ExecInsert(s, schema, stmt, supply);
      var name := schema.storageName;
      (s', outcome) == ExecInsert(s, schema, stmt, supply.(halt := Never)) || (
        && !outcome.RowInserted? && s'.files == s.files && s'.forced == s.forced && OthersUnchanged(s, s', name)
        && (EntryOf(s', name) == EntryOf(s, name)
            || EntryOf(s', name) == EnsureLoaded(EntryOf(s, name), FileOf(s, name), supply.nodes).entry))
  {
    hide AppendAndRegister, EnsureLoaded, BuildRow, ValidationError, AgreesAt, IsBPlusTree, Contents;
    LoadForTouchesOne(s, schema.storageName, supply);
  }

  // ----- SELECT --------------------------------------------------------------

  /** A SELECT changes at most the entry of its table, and that by loading it. */
  lemma SelectOnlyLoads(s: State, schema: Schema, stmt: SelectStatement, supply: Supply)
    requires SoundState(s)
    ensures var s' := ExecSelect(s, schema, stmt, supply).0;
      s' == s || s' == LoadFor(s, schema.storageName, supply).0
  {
    hide LoadFor, LinearSelect, IndexSelect, SoundState;
  }

  lemma SelectKeepsAgreement(s: State, schema: Schema, stmt: SelectStatement, supply: Supply)
    requires SoundState(s)
    ensures var s', name := ExecSelect(s, schema, stmt, supply).0, schema.storageName;
      && s'.files == s.files && OthersUnchanged(s, s', name)
      && (AgreesAt(s, name) ==> AgreesAt(s', name)) && (EntryOf(s, name).loaded ==> s' == s)
  {
    hide ExecSelect, LoadFor, Agrees, Sound;
    SelectOnlyLoads(s, schema, stmt, supply);
    LoadForTouchesOne(s, schema.storageName, supply);
    if EntryOf(s, schema.storageName).loaded {
      LoadedIsUsed(s, schema.storageName, supply);
    }
  }

  /** What a look-up by id shows for the row it reads. */
  function RowAnswer(row: Row, width: nat, selected: seq<int>, id: int): Answer
    requires InRange(selected, width)
  {
    if |row.fields| != width then Failed(WrongFieldCount) else Rows([Project(row.fields, selected, id)])
  }

  /** What `WHERE id = k` has to answer, said by the file alone. */
  ghost function AnswerById(s: State, name: string, width: nat, selected: seq<int>, id: int): Answer
    requires name in s.files && InRange(selected, width)
  {
    var rows := RowsOf(s, name);
    if id < 1 || |rows| < id then Rows([]) else RowAnswer(rows[id - 1], width, selected, id)
  }

  /** The index could not be loaded, or memory ran out behind it. */
  predicate IndexUnusable(answer: Answer) {
    answer.Failed? && (answer.error.LookupFailed? || answer.error == NoMemoryLeft)
  }

  /** The entry, if loaded, leads from the ids of these rows to their offsets; it may hold other ids as well. */
  ghost predicate Knows(e: TableEntry, rows: seq<Row>) {
    && Sound(e)
    && (e.loaded ==> forall id :: 1 <= id <= |rows| ==>
          id in Contents(e.tree.root) && Contents(e.tree.root)[id] == OffsetOf(rows, id))
  }

  lemma LoadedKnows(all: seq<Row>, rows: seq<Row>)
    requires rows <= all
    ensures Knows(Loaded(all), rows)
  {
    hide TreeOf, IsBPlusTree, Contents;
    TreeOfContents(all);
    assert forall id :: 1 <= id <= |rows| ==> OffsetOf(all, id) == OffsetOf(rows, id);
  }

  /** A look-up of an id that the entry knows, if loaded, answers its row or fails for want of an index. */
  lemma KnownIdAnswers(s: State, name: string, rows: seq<Row>, width: nat, selected: seq<int>, text: string, id: int,
                       supply: Supply)
    requires SoundState(s) && name in s.files && rows <= RowsOf(s, name) && Knows(EntryOf(s, name), rows)
    requires InRange(selected, width) && ParseIntStrict(text) == Some(id) && 1 <= id <= |rows|
    ensures var answer := ExecSelectById(s, name, width, selected, text, supply).1;
      if CanUse(s, name, supply) then answer == RowAnswer(rows[id - 1], width, selected, id)
      else IndexUnusable(answer)
  {
    hide LoadFor, CanUse, TreeOf, Contents, IsBPlusTree, ScanFrom, ReadRowAt, Project, SoundState, AgreesAt, Loaded;
    LoadsExactly(s, name, supply);
    LoadForTouchesOne(s, name, supply);
    var load := LoadFor(s, name, supply).1;
    if load.error.None? {
      LoadedKnows(RowsOf(s, name), rows);
      assert Knows(load.entry, rows);
      assert OffsetOf(rows, id) == rows[id - 1].offset && rows[id - 1] == RowsOf(s, name)[id - 1];
      ScannedRowIsRead(s.files[name], id - 1);
    }
  }

  lemma ScannedRowIsRead(bytes: string, i: nat)
    requires i < |ScanFile(bytes).rows|
    ensures var row := ScanFile(bytes).rows[i]; ReadRowAt(bytes, row.offset) == Ok(row.fields)
  {
    hide ReadRowAt;
    OffsetsLeadToRows(bytes, LineEndAt(bytes, 0), i);
  }

  /** Where cache and file agree the index answers what the file says, or only that memory ran out. */
  lemma SelectByIdIsExact(s: State, name: string, width: nat, selected: seq<int>, text: string, id: int, supply: Supply)
    requires SoundState(s) && AgreesAt(s, name) && Scans(s, name)
    requires InRange(selected, width) && ParseIntStrict(text) == Some(id)
    ensures var answer := ExecSelectById(s, name, width, selected, text, supply).1;
      if CanUse(s, name, supply) then answer == AnswerById(s, name, width, selected, id)
      else answer == Failed(LookupFailed(NoMemory)) || answer == Failed(NoMemoryLeft)
  {
    hide TreeOf, Contents, IsBPlusTree, ScanFile, ReadRowAt, Project, Rebuild, Nodes, IndexSelect;
    LoadsExactly(s, name, supply);
    LoadForTouchesOne(s, name, supply);
    RebuildGivesLoaded(FileOf(s, name), supply.nodes);
    TreeOfContents(RowsOf(s, name));
    IndexSelectSucceeds(s.files[name], width, selected, id);
  }

  lemma SelectionInRange(stmt: SelectStatement, schema: Schema)
    ensures Selection(stmt, schema).Ok? ==> InRange(Selection(stmt, schema).value, |schema.columns|)
  {
  }

  /**
    The two query paths agree wherever cache and file do: when the unfiltered linear
    SELECT succeeds, the same SELECT with `WHERE id = k` shows exactly its row
    number k, or nothing when there is no such row.
  */
  lemma PathsAgree(s: State, schema: Schema, stmt: SelectStatement, id: int, supply: Supply)
    requires SoundState(s) && AgreesAt(s, schema.storageName)
    requires schema.storageName in s.files && CanUse(s, schema.storageName, supply)
    requires IsById(stmt) && ParseIntStrict(stmt.where.value.value) == Some(id)
    requires ExecSelect(s, schema, stmt.(where := None), supply).1.Rows?
    ensures var all := ExecSelect(s, schema, stmt.(where := None), supply).1.rows;
      ExecSelect(s, schema, stmt, supply).1 == Rows(if 1 <= id <= |all| then [all[id - 1]] else [])
  {
    hide ExecSelectById, CanUse, LinearFrom, ScanFrom, IndexSelect, Project, AgreesAt, SoundState;
    var name, width := schema.storageName, |schema.columns|;
    var selected := Selection(stmt, schema).value;
    SelectionInRange(stmt, schema);
    LinearIsAllRows(ScanFile(s.files[name]), width, selected, 1);
    SelectByIdIsExact(s, name, width, selected, stmt.where.value.value, id, supply);
    IndexSelectSucceeds(s.files[name], width, selected, id);
    IndexRefinesLinear(s.files[name], width, selected, id);
  }
}
