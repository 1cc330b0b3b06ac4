/** What holds over every run of the executor: when cache and file agree, which ids keep their answers, isolation. */
module RunLaws {
  import opened Wrappers
  import opened Text
  import opened CsvCodec
  import opened CsvFile
  import opened Ast
  import opened BTreeModel
  import opened IndexSpec
  import opened RowBuilder
  import opened Query
  import opened Engine
  import opened EngineLaws

  ghost function Run(s: State, steps: seq<Step>): (s': State)
    requires SoundState(s)
    ensures SoundState(s')
    decreases |steps|
  {
    if steps == [] then s
    else
      NextKeepsSound(s, steps[0]);
      Run(Next(s, steps[0]), steps[1..])
  }

  lemma {:induction false} RunEndsWith(s: State, steps: seq<Step>, k: nat)
    requires SoundState(s) && k < |steps|
    ensures Run(s, steps[..k + 1]) == Next(Run(s, steps[..k]), steps[k])
    decreases k
  {
    hide Next, SoundState;
    NextKeepsSound(s, steps[0]);
    var s1 := Next(s, steps[0]);
    assert steps[..k + 1][1..] == steps[1..][..k];
    if k == 0 {
      assert steps[..0] == [] && steps[1..][..0] == [];
    } else {
      assert steps[..k][1..] == steps[1..][..k - 1];
      RunEndsWith(s1, steps[1..], k - 1);
    }
  }

  /** A statement takes its own step; and what the steps that are no statements do. */
  lemma StepEffects(s: State, step: Step, name: string, bytes: string)
    requires SoundState(s)
    ensures step.InsertStep? ==> Next(s, step) == ExecInsert(s, step.schema, step.insert, step.supply).0
    ensures step.SelectStep? ==> Next(s, step) == ExecSelect(s, step.schema, step.select, step.supply).0
    ensures Next(s, ForceFailureStep) == State(s.files, s.entries, true)
    ensures Next(s, ResetStep) == State(s.files, map[], false)
    ensures Next(s, RewriteStep(name, bytes)) == State(s.files[name := bytes], map[], false)
    ensures var s' := Next(s, InvalidateStep(name));
      && s'.files == s.files && s'.forced == s.forced && s'.entries.Keys == s.entries.Keys
      && EntryOf(s', name) == UNLOADED && forall other :: other != name ==> EntryOf(s', other) == EntryOf(s, other)
  {
    hide ExecInsert, ExecSelect, Sound;
  }

  // ----- Isolation -----------------------------------------------------------

  /** The table a step works on; resets and rewrites work on all. */
  function TableOf(step: Step): Option<string> {
    match step
    case InsertStep(schema, _, _) => Some(schema.storageName)
    case SelectStep(schema, _, _) => Some(schema.storageName)
    case InvalidateStep(name) => Some(name)
    case _ => None
  }

  /** A step on one table leaves the file, the map, the next id and the loaded flag of every other table alone. */
  lemma StepIsIsolated(s: State, step: Step)
    requires SoundState(s) && TableOf(step).Some?
    ensures OthersUnchanged(s, Next(s, step), TableOf(step).value)
  {
    hide ExecInsert, ExecSelect, Sound, AgreesAt;
    match step
    case InsertStep(schema, insert, supply) => InsertIsIsolated(s, schema, insert, supply);
    case SelectStep(schema, select, supply) => SelectKeepsAgreement(s, schema, select, supply);
    case _ =>
  }

  lemma InsertIsIsolated(s: State, schema: Schema, stmt: InsertStatement, supply: Supply)
    requires SoundState(s)
    ensures OthersUnchanged(s, ExecInsert(s, schema, stmt, supply).0, schema.storageName)
  {
    hide LoadFor, AppendAndRegister, BuildRow, ValidationError, Sound, AgreesAt;
    var name := schema.storageName;
    var (s1, load) := LoadFor(s, name, supply);
    LoadForTouchesOne(s, name, supply);
    var valid := ValidationError(stmt.columns, stmt.values, schema.columns).None?;
    if valid && load.error.None? && name in s.files {
      AppendIsIsolated(s1, name, load, BuildRow(stmt.columns, stmt.values, schema.columns).1, supply.fields);
    }
  }

  lemma AppendIsIsolated(s: State, name: string, load: Load, row: seq<string>, fields: nat)
    requires name in s.files && Sound(load.entry) && load.entry.loaded
    ensures OthersUnchanged(s, AppendAndRegister(s, name, load, row, fields).0, name)
  {
    hide RegisterIn, Appended, Sound;
  }

  /** A step on another table, or the forcing of a failure, which belongs to none. */
  predicate Elsewhere(step: Step, name: string) {
    step.ForceFailureStep? || (TableOf(step).Some? && TableOf(step).value != name)
  }

  lemma StepElsewhere(s: State, step: Step, name: string)
    requires SoundState(s) && Elsewhere(step, name)
    ensures var s' := Next(s, step);
      && FileOf(s', name) == FileOf(s, name)
      && (name in s'.entries <==> name in s.entries) && EntryOf(s', name) == EntryOf(s, name)
  {
    if !step.ForceFailureStep? {
      StepIsIsolated(s, step);
      hide Next;
    }
  }

  /** So does a whole run of steps on other tables, whatever fails on the way, test hook included. */
  lemma {:induction false} RunsAreIsolated(s: State, steps: seq<Step>, name: string)
    requires SoundState(s)
    requires forall i :: 0 <= i < |steps| ==> Elsewhere(steps[i], name)
    ensures var s' := Run(s, steps);
      && FileOf(s', name) == FileOf(s, name)
      && (name in s'.entries <==> name in s.entries) && EntryOf(s', name) == EntryOf(s, name)
    decreases |steps|
  {
    if steps != [] {
      hide Next, OthersUnchanged;
      NextKeepsSound(s, steps[0]);
      StepElsewhere(s, steps[0], name);
      RunsAreIsolated(Next(s, steps[0]), steps[1..], name);
    }
  }

  // ----- Agreement -----------------------------------------------------------

  /** What the program always gives: schemas that have been loaded, and values that are C strings. */
  predicate Ordinary(step: Step) {
    step.InsertStep? ==> step.schema.Valid() && CStrings(step.insert)
  }

  ghost predicate AllOrdinary(steps: seq<Step>) {
    forall i :: 0 <= i < |steps| ==> Ordinary(steps[i])
  }

  /** An INSERT into this table of a row that does not fit the line buffer, or that is cut off in mid-row. */
  predicate Unfit(step: Step, name: string) {
    step.InsertStep? && step.schema.storageName == name && UnfitInsert(step.schema, step.insert, step.supply)
  }

  ghost predicate NoneUnfit(steps: seq<Step>, name: string) {
    forall i :: 0 <= i < |steps| ==> !Unfit(steps[i], name)
  }

  ghost predicate AgreesOrBehind(s: State, name: string) {
    SoundState(s) && (AgreesAt(s, name) || BehindAt(s, name))
  }

  /** A step that leaves the entry loaded leaves it in agreement if and only if it was, and the step is not unfit. */
  lemma StepAgreement(s: State, step: Step, name: string)
    requires AgreesOrBehind(s, name) && Ordinary(step)
    ensures var s' := Next(s, step);
      && AgreesOrBehind(s', name)
      && (EntryOf(s', name).loaded ==> (AgreesAt(s', name) <==> AgreesAt(s, name) && !Unfit(step, name)))
      && (!EntryOf(s', name).loaded ==> AgreesAt(s', name))
  {
    hide ExecInsert, ExecSelect, Agrees, Behind, UnfitInsert, Sound;
    NextKeepsSound(s, step);
    var s' := Next(s, step);
    UnloadedAgrees(s', name);
    if step.InsertStep? && step.schema.storageName == name {
      InsertAgreement(s, step.schema, step.insert, step.supply);
    } else if step.SelectStep? && step.schema.storageName == name {
      SelectKeepsAgreement(s, step.schema, step.select, step.supply);
    } else if Elsewhere(step, name) {
      StepElsewhere(s, step, name);
    }
    LoadedIfBehind(s, name);
  }

  lemma LoadedIfBehind(s: State, name: string)
    requires AgreesOrBehind(s, name)
    ensures BehindAt(s, name) <==> !AgreesAt(s, name)
    ensures BehindAt(s, name) ==> EntryOf(s, name).loaded
  {
    if BehindAt(s, name) {
      BehindDisagrees(EntryOf(s, name), FileOf(s, name));
    }
  }

  lemma UnloadedAgrees(s: State, name: string)
    requires SoundState(s)
    ensures !EntryOf(s, name).loaded ==> AgreesAt(s, name)
  {
    UnloadedIsFine(FileOf(s, name));
  }

  lemma InsertAgreement(s: State, schema: Schema, stmt: InsertStatement, supply: Supply)
    requires AgreesOrBehind(s, schema.storageName) && schema.Valid() && CStrings(stmt)
    ensures var s', name := ExecInsert(s, schema, stmt, supply).0, schema.storageName;
      EntryOf(s', name).loaded ==>
        && (AgreesAt(s', name) || BehindAt(s', name))
        && (AgreesAt(s', name) <==> AgreesAt(s, name) && !UnfitInsert(schema, stmt, supply))
  {
    hide ExecInsert, Agrees, Behind, RowOf, Short, HaltsLoad, Registers, Sound, TreeOf, Nodes, Scans, Loaded;
    var name := schema.storageName;
    LoadedIfBehind(s, name);
    if AgreesAt(s, name) {
      InsertOutcomes(s, schema, stmt, supply);
      AgreementByOutcome(s, schema, stmt, supply);
      if UnfitInsert(schema, stmt, supply) {
        LoadedReaches(s, schema, stmt, supply);
      }
    } else {
      InsertStaysBehind(s, schema, stmt, supply);
      var s' := ExecInsert(s, schema, stmt, supply).0;
      if EntryOf(s', name).loaded {
        BehindDisagrees(EntryOf(s', name), FileOf(s', name));
      }
    }
  }

  /** An INSERT with a row and memory for other things, and with the entry loaded at its end, has appended. */
  lemma LoadedReaches(s: State, schema: Schema, stmt: InsertStatement, supply: Supply)
    requires SoundState(s) && AgreesAt(s, schema.storageName) && schema.Valid()
    requires RowOf(schema, stmt).Some? && !supply.halt.AtStart? && !supply.halt.AfterLoad?
    ensures EntryOf(ExecInsert(s, schema, stmt, supply).0, schema.storageName).loaded ==>
      Reaches(s, schema, stmt, supply)
  {
    hide ExecInsert, AppendAndRegister, LoadFor, CanUse, RowOf, Sound, ScanFile, Loaded;
    var name := schema.storageName;
    InsertPath(s, schema, stmt, supply);
    LoadForTouchesOne(s, name, supply);
    if EntryOf(s, name).loaded {
      LoadedIsUsed(s, name, supply);
    }
    if name in s.files {
      LoadsExactly(s, name, supply);
    }
  }

  /** After step `i` there is a state, up to the end of the run, in which the entry is not loaded. */
  ghost predicate Mended(s: State, steps: seq<Step>, name: string, i: nat)
    requires SoundState(s)
  {
    exists j :: i < j <= |steps| && !EntryOf(Run(s, steps[..j]), name).loaded
  }

  ghost predicate AllMended(s: State, steps: seq<Step>, name: string)
    requires SoundState(s)
  {
    forall i :: 0 <= i < |steps| && Unfit(steps[i], name) ==> Mended(s, steps, name, i)
  }

  /**
    The law of agreement. After any run, whatever failed in it, the entry of a table
    is the one a scan of its file would give if and only if after each unfit INSERT
    into this table the entry has been unloaded at some time. Until then the index has
    fallen behind the file. What happened to other tables does not matter.
  */
  lemma {:induction false} AgreementLaw(s: State, steps: seq<Step>, name: string)
    requires SoundState(s) && AgreesAt(s, name) && AllOrdinary(steps)
    ensures AgreesOrBehind(Run(s, steps), name)
    ensures AgreesAt(Run(s, steps), name) <==> AllMended(s, steps, name)
    decreases |steps|
  {
    hide Next, SoundState, AgreesAt, BehindAt, Ordinary, Unfit, Mended;
    if steps != [] {
      var k := |steps| - 1;
      var before := steps[..k];
      AgreementLaw(s, before, name);
      RunEndsWith(s, steps, k);
      assert steps[..k + 1] == steps;
      StepAgreement(Run(s, before), steps[k], name);
      forall i | 0 <= i < |steps|
        ensures Mended(s, steps, name, i) <==>
          !EntryOf(Run(s, steps), name).loaded || (i < k && Mended(s, before, name, i))
      {
        MendedStep(s, steps, name, i);
      }
    }
  }

  lemma MendedStep(s: State, steps: seq<Step>, name: string, i: nat)
    requires SoundState(s) && i < |steps|
    ensures Mended(s, steps, name, i) <==>
      || !EntryOf(Run(s, steps), name).loaded
      || (i < |steps| - 1 && Mended(s, steps[..|steps| - 1], name, i))
  {
    hide Run, SoundState;
    var before := steps[..|steps| - 1];
    assert forall j :: 0 <= j <= |before| ==> before[..j] == steps[..j];
    assert steps[..|steps|] == steps;
  }

  /**
    Cache safety over every run: in each state reached, every table that agreed at the
    start and into which no unfit INSERT went has, if its entry is loaded, exactly the
    ids 1..N at the offsets of the N data rows of its file, in the very tree a rebuild
    would give, with next id N + 1.
  */
  lemma EveryRunStaysConsistent(s: State, steps: seq<Step>)
    requires SoundState(s) && AllOrdinary(steps)
    ensures forall name :: AgreesAt(s, name) && NoneUnfit(steps, name) ==> AgreesAt(Run(s, steps), name)
  {
    hide AgreesAt, Run, Unfit, Mended;
    forall name | AgreesAt(s, name) && NoneUnfit(steps, name) ensures AgreesAt(Run(s, steps), name) {
      AgreementLaw(s, steps, name);
    }
  }

  /** What agreement means for the map that a look-up uses. */
  lemma LoadedEntryMeans(e: TableEntry, bytes: string)
    requires Agrees(e, Some(bytes)) && e.loaded
    ensures var rows := ScanFile(bytes).rows;
      && Contents(e.tree.root) == OffsetMap(rows) && e.nextId == |rows| + 1
      && (forall id :: id in Contents(e.tree.root) <==> 1 <= id <= |rows|)
      && forall id :: 1 <= id <= |rows| ==>
           && Contents(e.tree.root)[id] == rows[id - 1].offset
           && ReadRowAt(bytes, rows[id - 1].offset) == Ok(rows[id - 1].fields)
  {
    hide ReadRowAt, ScanFrom, TreeOf, Contents;
    var rows := ScanFile(bytes).rows;
    TreeOfContents(rows);
    forall id | 1 <= id <= |rows|
      ensures OffsetMap(rows)[id] == rows[id - 1].offset
      ensures ReadRowAt(bytes, rows[id - 1].offset) == Ok(rows[id - 1].fields)
    {
      assert OffsetOf(rows, id) == rows[id - 1].offset;
      ScannedRowIsRead(bytes, id - 1);
    }
  }

  /**
    From a start with no index loaded, after every run in which each unfit INSERT into
    this table was mended: the two query paths agree.
  */
  lemma PathsAgreeAfterEveryRun(files: map<string, string>, steps: seq<Step>, schema: Schema, stmt: SelectStatement,
                                id: int, supply: Supply)
    requires AllOrdinary(steps) && IsById(stmt) && ParseIntStrict(stmt.where.value.value) == Some(id)
    ensures var start, name := State(files, map[], false), schema.storageName;
      && SoundState(start)
      && (AllMended(start, steps, name) ==>
            var s := Run(start, steps);
            SoundState(s) && (
              var all := ExecSelect(s, schema, stmt.(where := None), supply).1;
              name in s.files && CanUse(s, name, supply) && all.Rows? ==>
                ExecSelect(s, schema, stmt, supply).1 ==
                  Rows(if 1 <= id <= |all.rows| then [all.rows[id - 1]] else [])))
  {
    hide ExecSelect, CanUse, AllMended, AgreesAt, Run, AllOrdinary;
    var start, name := State(files, map[], false), schema.storageName;
    UnloadedAgrees(start, name);
    AgreementLaw(start, steps, name);
    var s := Run(start, steps);
    if AllMended(start, steps, name) && name in s.files && CanUse(s, name, supply)
      && ExecSelect(s, schema, stmt.(where := None), supply).1.Rows? {
      PathsAgree(s, schema, stmt, id, supply);
    }
  }

  // ----- Durability ----------------------------------------------------------

  predicate Rewrites(step: Step, name: string) {
    step.RewriteStep? && step.name == name
  }

  ghost predicate NoneRewrites(steps: seq<Step>, name: string) {
    forall i :: 0 <= i < |steps| ==> !Rewrites(steps[i], name)
  }

  /** A step never takes a byte from a file, unless it rewrites it: an INSERT appends a row or a part of one. */
  lemma NextOnlyAppends(s: State, step: Step, name: string) returns (part: seq<string>)
    requires SoundState(s) && name in s.files && !Rewrites(step, name)
    ensures var s' := Next(s, step);
      name in s'.files && (s'.files[name] == s.files[name] || s'.files[name] == Appended(s.files[name], part))
  {
    hide LoadFor, ExecInsert, ExecSelect, Appended, AgreesAt;
    part := [];
    match step
    case InsertStep(schema, insert, supply) => part := InsertOnlyAppends(s, schema, insert, supply, name);
    case SelectStep(schema, select, supply) => SelectKeepsAgreement(s, schema, select, supply);
    case _ =>
  }

  lemma InsertOnlyAppends(s: State, schema: Schema, stmt: InsertStatement, supply: Supply, name: string)
    returns (part: seq<string>)
    requires SoundState(s) && name in s.files
    ensures var s' := ExecInsert(s, schema, stmt, supply).0;
      name in s'.files && (s'.files[name] == s.files[name] || s'.files[name] == Appended(s.files[name], part))
  {
    hide LoadFor, BuildRow, Appended, RegisterIn, AgreesAt;
    var row := RowOf(schema, stmt);
    part := if row.None? then [] else if supply.fields < |row.value| then row.value[..supply.fields] else row.value;
    LoadForTouchesOne(s, schema.storageName, supply);
  }

  /** Whatever happens later, short of a rewrite, the rows of a file stay what they are, where they are, in order. */
  lemma {:induction false} RowsSurviveRuns(s: State, steps: seq<Step>, name: string)
    requires SoundState(s) && name in s.files && NoneRewrites(steps, name)
    ensures name in Run(s, steps).files && RowsOf(s, name) <= RowsOf(Run(s, steps), name)
    decreases |steps|
  {
    hide Next, ScanFile, Appended;
    if steps != [] {
      var part := NextOnlyAppends(s, steps[0], name);
      AppendKeepsRows(s.files[name], part);
      NextKeepsSound(s, steps[0]);
      RowsSurviveRuns(Next(s, steps[0]), steps[1..], name);
    }
  }

  /** These rows are the first of the file, and the entry, if loaded, knows them. */
  ghost predicate Keeps(s: State, name: string, rows: seq<Row>) {
    SoundState(s) && name in s.files && rows <= RowsOf(s, name) && Knows(EntryOf(s, name), rows)
  }

  lemma AgreeingKeeps(s: State, name: string)
    requires SoundState(s) && AgreesAt(s, name) && name in s.files
    ensures Keeps(s, name, RowsOf(s, name))
  {
    hide TreeOf, ScanFile, IsBPlusTree, Contents;
    LoadedKnows(RowsOf(s, name), RowsOf(s, name));
  }

  lemma LoadKeepsKnowing(s: State, name: string, rows: seq<Row>, supply: Supply)
    requires Keeps(s, name, rows)
    ensures Keeps(LoadFor(s, name, supply).0, name, rows)
  {
    hide LoadFor, CanUse, Loaded, ScanFile, IsBPlusTree, Contents, AgreesAt;
    LoadForTouchesOne(s, name, supply);
    LoadsExactly(s, name, supply);
    LoadedKnows(RowsOf(s, name), rows);
  }

  /** A registration keeps what the entry knew: the id it adds was not there. */
  lemma RegisterKeepsKnowing(e: TableEntry, rows: seq<Row>, offset: nat, budget: nat)
    requires Knows(e, rows) && e.loaded
    ensures var l := RegisterIn(e, e.nextId, offset, budget); l.error.None? ==> Knows(l.entry, rows)
  {
    hide RegisterIn, IsBPlusTree, Contents;
    RegisterAdds(e, offset, budget);
  }

  /** Any step that does not rewrite the table keeps its rows and what its entry knows of them. */
  lemma NextKeeps(s: State, step: Step, name: string, rows: seq<Row>)
    requires Keeps(s, name, rows) && !Rewrites(step, name)
    ensures Keeps(Next(s, step), name, rows)
  {
    hide ExecInsert, ExecSelect, Appended, ScanFile, Knows, LoadFor;
    NextKeepsSound(s, step);
    var part := NextOnlyAppends(s, step, name);
    AppendKeepsRows(s.files[name], part);
    UnloadedKnows(rows);
    if step.InsertStep? && step.schema.storageName == name {
      InsertKeepsKnowing(s, step.schema, step.insert, step.supply, rows);
    } else if step.SelectStep? && step.schema.storageName == name {
      SelectOnlyLoads(s, step.schema, step.select, step.supply);
      LoadKeepsKnowing(s, name, rows, step.supply);
    } else if Elsewhere(step, name) {
      StepElsewhere(s, step, name);
    }
  }

  lemma UnloadedKnows(rows: seq<Row>)
    ensures Knows(UNLOADED, rows)
  {
  }

  lemma InsertKeepsKnowing(s: State, schema: Schema, stmt: InsertStatement, supply: Supply, rows: seq<Row>)
    requires Keeps(s, schema.storageName, rows)
    ensures Knows(EntryOf(ExecInsert(s, schema, stmt, supply).0, schema.storageName), rows)
  {
    hide LoadFor, RegisterIn, BuildRow, ValidationError, Appended, Knows, ScanFile, Sound, AgreesAt;
    var name := schema.storageName;
    var (s1, load) := LoadFor(s, name, supply);
    LoadForTouchesOne(s, name, supply);
    LoadKeepsKnowing(s, name, rows, supply);
    UnloadedKnows(rows);
    if load.error.None? {
      RegisterKeepsKnowing(load.entry, rows, AppendOffset(s.files[name]), load.left);
    }
  }

  lemma {:induction false} RunKeeps(s: State, steps: seq<Step>, name: string, rows: seq<Row>)
    requires Keeps(s, name, rows) && NoneRewrites(steps, name)
    ensures Keeps(Run(s, steps), name, rows)
    decreases |steps|
  {
    hide Next, Knows, RowsOf, Rewrites;
    if steps != [] {
      NextKeeps(s, steps[0], name, rows);
      RunKeeps(Next(s, steps[0]), steps[1..], name, rows);
    }
  }

  /**
    No run makes an id that was there answer wrongly. From any state whose entry is
    right about some rows, and after any run short of rewriting the table - overlong
    rows, rows cut off in the middle and failures of every kind included - a look-up of
    one of these ids answers its row, or it fails because the index cannot be loaded.
  */
  lemma IdsEndure(s: State, steps: seq<Step>, name: string, rows: seq<Row>, width: nat, selected: seq<int>,
                  text: string, id: int, later: Supply)
    requires Keeps(s, name, rows) && NoneRewrites(steps, name)
    requires InRange(selected, width) && ParseIntStrict(text) == Some(id) && 1 <= id <= |rows|
    ensures var s2 := Run(s, steps);
      && SoundState(s2) && name in s2.files
      && var answer := ExecSelectById(s2, name, width, selected, text, later).1;
         if CanUse(s2, name, later) then answer == RowAnswer(rows[id - 1], width, selected, id)
         else IndexUnusable(answer)
  {
    hide Run, ExecSelectById, CanUse, Knows, RowsOf, NoneRewrites, RowAnswer;
    RunKeeps(s, steps, name, rows);
    KnownIdAnswers(Run(s, steps), name, rows, width, selected, text, id, later);
  }

  lemma OneRowTable()
    ensures ScanFile("name\na\n") == Scan([Row(5, ["a"])], None)
  {
    hide LineAt, ParseCsv;
    ChunkEndFirst("name\na\n", 0, LINE_MAX, 5);
    SecondLine();
  }

  lemma SecondLine()
    ensures LineEndAt("name\na\n", 5) == 7 && LineAt("name\na\n", 5) == "a" && ParseCsv("a") == Ok(["a"])
  {
    hide ParseCsv;
    var bytes := "name\na\n";
    ChunkEndFirst(bytes, 5, LINE_MAX, 7);
    assert bytes[5..7] == "a\n";
    UpToNulAll("a\n");
    StripIgnoresNewline("a");
    RowRoundTrip(["a"]);
    NormIsExact("a");
    assert EncodeRow(["a"]) == "a" && NormRow(["a"]) == ["a"];
  }

  lemma SmallTrees(first: Row, second: Row)
    ensures Nodes(TreeOf([first])) == 1 && Nodes(TreeOf([first] + [second])) == 1
  {
    FirstTwo([first, second]);
    assert [first, second] == [first] + [second];
    assert [first][..0] == [];
  }

  /** A quoted value of more bytes than one `fgets` reads is written and registered. */
  lemma LongCommasInsert(s: State)
    requires s == State(map["t" := "name\na\n"], map[], false)
    ensures var schema, stmt := Schema("t", ["name"]), InsertStatement("t", ["name"], [LONG_COMMAS]);
      var (s1, outcome) := ExecInsert(s, schema, stmt, Supply(1, 1, Never));
      && SoundState(s) && AgreesAt(s, "t") && RowsOf(s, "t") == [Row(5, ["a"])] && outcome.RowInserted?
      && s1.files["t"] == Appended("name\na\n", [LONG_COMMAS]) && EntryOf(s1, "t").loaded
  {
    hide ExecInsert, EncodeRow, Appended, TreeOf, Nodes, ScanFile, NormRow, AppendOffset, OneLineRow;
    var schema, stmt := Schema("t", ["name"]), InsertStatement("t", ["name"], [LONG_COMMAS]);
    OneRowTable();
    LongCommasEncoded();
    OneColumnRow(LONG_COMMAS);
    SmallTrees(Row(5, ["a"]), NewRow(s, "t", [LONG_COMMAS]));
    InsertOutcomes(s, schema, stmt, Supply(1, 1, Never));
  }

  /**
    A look-up that does fail: after the INSERT of a value whose closing quote one
    `fgets` does not reach, id 1 is still found through the loaded index, but once
    that is invalidated the file cannot be scanned for a new one.
  */
  lemma LookUpCanFail()
    ensures var s, schema := State(map["t" := "name\na\n"], map[], false), Schema("t", ["name"]);
      var insert := InsertStep(schema, InsertStatement("t", ["name"], [LONG_COMMAS]), Supply(1, 1, Never));
      && SoundState(s)
      && var s1, s2, later := Run(s, [insert]), Run(s, [insert, InvalidateStep("t")]), Supply(1, 0, Never);
         && ExecSelectById(s, "t", 1, [0], "1", later).1 == Rows([["a"]])
         && ExecSelectById(s1, "t", 1, [0], "1", later).1 == Rows([["a"]])
         && ExecSelectById(s2, "t", 1, [0], "1", later).1 == Failed(LookupFailed(BadFile(UNTERMINATED)))
  {
    hide ExecInsert, ExecSelectById, TreeOf, Nodes, ScanFile, Appended, Knows;
    var s, schema := State(map["t" := "name\na\n"], map[], false), Schema("t", ["name"]);
    var insert := InsertStep(schema, InsertStatement("t", ["name"], [LONG_COMMAS]), Supply(1, 1, Never));
    var rows, later := [Row(5, ["a"])], Supply(1, 0, Never);
    LongCommasInsert(s);
    AgreeingKeeps(s, "t");
    RunOfTwo(s, insert, InvalidateStep("t"));
    SmallTrees(rows[0], rows[0]);
    assert ParseIntStrict("1") == Some(1) by { DecimalReadBack(1); assert Decimal(1) == "1"; }
    IdsEndure(s, [], "t", rows, 1, [0], "1", 1, later);
    IdsEndure(s, [insert], "t", rows, 1, [0], "1", 1, later);
    OneRowTable();
    LongCommasBreakScan("name\na\n");
    BrokenScanFails(Run(s, [insert, InvalidateStep("t")]), "t", rows, 1, [0], "1", later);
    assert Project(["a"], [0], 1) == ["a"];
  }

  lemma BrokenScanFails(s: State, name: string, rows: seq<Row>, width: nat, selected: seq<int>, text: string,
                        supply: Supply)
    requires SoundState(s) && name in s.files && !EntryOf(s, name).loaded && supply.halt.Never?
    requires ScanFile(s.files[name]) == Scan(rows, Some(UNTERMINATED)) && supply.nodes >= Nodes(TreeOf(rows))
    requires InRange(selected, width) && ParseIntStrict(text).Some?
    ensures ExecSelectById(s, name, width, selected, text, supply).1 == Failed(LookupFailed(BadFile(UNTERMINATED)))
  {
    hide Rebuild, TreeOf, Nodes, ScanFile, Contents, IndexSelect;
    RebuildGivesLoaded(FileOf(s, name), supply.nodes);
  }

  lemma RunOfTwo(s: State, first: Step, second: Step)
    requires SoundState(s)
    ensures Run(s, [first]) == Next(s, first) && SoundState(Next(s, first))
    ensures Run(s, [first, second]) == Next(Next(s, first), second)
  {
    hide Next, SoundState;
    NextKeepsSound(s, first);
    RunEndsWith(s, [first, second], 0);
    RunEndsWith(s, [first, second], 1);
    assert [first, second][..0] == [] && [first, second][..1] == [first] && [first, second][..2] == [first, second];
  }

  /** A file that scans still does after any step but a rewrite and an unfit INSERT. */
  lemma NextKeepsScanning(s: State, step: Step, name: string)
    requires SoundState(s) && Ordinary(step) && Scans(s, name) && !Rewrites(step, name) && !Unfit(step, name)
    ensures Scans(Next(s, step), name)
  {
    hide ScanFile, ExecInsert, ExecSelect, LoadFor, AgreesAt;
    match step
    case InsertStep(schema, insert, supply) =>
      if schema.storageName == name {
        InsertKeepsScanning(s, schema, insert, supply);
      } else {
        StepElsewhere(s, step, name);
      }
    case SelectStep(schema, select, supply) => SelectKeepsAgreement(s, schema, select, supply);
    case _ =>
  }

  lemma InsertKeepsScanning(s: State, schema: Schema, stmt: InsertStatement, supply: Supply)
    requires SoundState(s) && schema.Valid() && CStrings(stmt) && Scans(s, schema.storageName)
    requires !UnfitInsert(schema, stmt, supply)
    ensures Scans(ExecInsert(s, schema, stmt, supply).0, schema.storageName)
  {
    hide ScanFile, ExecInsert, LoadFor, AgreesAt, RowOf, Appended, RegisterIn, Sound;
    var name := schema.storageName;
    InsertPath(s, schema, stmt, supply);
    LoadForTouchesOne(s, name, supply);
    if RowOf(schema, stmt).Some? {
      var row := RowOf(schema, stmt).value;
      RowOfIsOneLine(schema, stmt);
      CutAppendScans(s.files[name], row, 0);
      if |EncodeRow(row)| <= LINE_MAX {
        AppendedFileScans(s, name, row);
      }
    }
  }

  lemma {:induction false} ScanningSurvivesRuns(s: State, steps: seq<Step>, name: string)
    requires SoundState(s) && AllOrdinary(steps) && Scans(s, name)
    requires NoneRewrites(steps, name) && NoneUnfit(steps, name)
    ensures Scans(Run(s, steps), name)
    decreases |steps|
  {
    hide Next, Scans, Ordinary, Unfit, Rewrites, SoundState;
    if steps != [] {
      NextKeepsSound(s, steps[0]);
      NextKeepsScanning(s, steps[0], name);
      ScanningSurvivesRuns(Next(s, steps[0]), steps[1..], name);
    }
  }

  /**
    Durability of meaning: after a successful INSERT into a table of N rows, and any
    later run that does not rewrite the table, `WHERE id = N + 1` answers the normal
    form of the inserted row, and every earlier id what it answered before the INSERT,
    whenever the index is loaded or can be; otherwise the look-up fails. The file can be
    scanned for it as long as no unfit INSERT goes into this table.
  */
  lemma InsertedRowEndures(s: State, schema: Schema, stmt: InsertStatement, supply: Supply, steps: seq<Step>,
                           selected: seq<int>, text: string, id: int, later: Supply)
    requires SoundState(s) && AgreesAt(s, schema.storageName) && Storable(schema, stmt)
    requires ExecInsert(s, schema, stmt, supply).1.RowInserted? && NoneRewrites(steps, schema.storageName)
    requires InRange(selected, |schema.columns|) && ParseIntStrict(text) == Some(id)
    ensures var name, width := schema.storageName, |schema.columns|;
      var s1 := ExecInsert(s, schema, stmt, supply).0;
      && SoundState(s1) && RowOf(schema, stmt).Some? && Scans(s, name)
      && var s2, n, row := Run(s1, steps), |RowsOf(s, name)|, NormRow(RowOf(schema, stmt).value);
         && SoundState(s2) && name in s2.files && |row| == width
         && (AllOrdinary(steps) && NoneUnfit(steps, name) ==> Scans(s2, name))
         && var answer := ExecSelectById(s2, name, width, selected, text, later).1;
            1 <= id <= n + 1 ==>
              if !CanUse(s2, name, later) then IndexUnusable(answer)
              else if id == n + 1 then answer == Rows([Project(row, selected, id)])
              else answer == AnswerById(s, name, width, selected, id)
  {
    hide ExecInsert, ExecSelectById, Run, AgreesAt, SoundState, CanUse, RowOf, RowsOf, NormRow, AppendOffset;
    hide AllOrdinary, NoneUnfit, NoneRewrites, IndexUnusable;
    var name, width := schema.storageName, |schema.columns|;
    RowsAfterInsert(s, schema, stmt, supply);
    var s1 := ExecInsert(s, schema, stmt, supply).0;
    AgreeingKeeps(s1, name);
    RunKeeps(s1, steps, name, RowsOf(s1, name));
    if AllOrdinary(steps) && NoneUnfit(steps, name) {
      ScanningSurvivesRuns(s1, steps, name);
    }
    if 1 <= id <= |RowsOf(s, name)| + 1 {
      IdsEndure(s1, steps, name, RowsOf(s1, name), width, selected, text, id, later);
    }
  }

  /** The values are C strings and the row fits the line buffer. */
  predicate Storable(schema: Schema, stmt: InsertStatement) {
    schema.Valid() && CStrings(stmt) && Short(schema, stmt)
  }

  lemma RowsAfterInsert(s: State, schema: Schema, stmt: InsertStatement, supply: Supply)
    requires SoundState(s) && AgreesAt(s, schema.storageName) && Storable(schema, stmt)
    requires ExecInsert(s, schema, stmt, supply).1.RowInserted?
    ensures var name := schema.storageName;
      var s1 := ExecInsert(s, schema, stmt, supply).0;
      && SoundState(s1) && AgreesAt(s1, name) && Scans(s1, name) && RowOf(schema, stmt).Some?
      && name in s.files && Scans(s, name)
      && |NormRow(RowOf(schema, stmt).value)| == |schema.columns|
      && RowsOf(s1, name) == RowsOf(s, name) + [NewRow(s, name, RowOf(schema, stmt).value)]
  {
    hide ExecInsert, RowOf, Appended, ScanFile, AgreesAt, SoundState, CanUse, Registers, OthersUnchanged, NormRow;
    InsertOutcomes(s, schema, stmt, supply);
    AgreementByOutcome(s, schema, stmt, supply);
    InsertKeepsSound(s, schema, stmt, supply);
    RowOfIsOneLine(schema, stmt);
    AppendedFileScans(s, schema.storageName, RowOf(schema, stmt).value);
  }
}
