/**
  The executor, its table indexes and the CSV files as one state machine
  (src/execution/executor.c over src/index/table_index.c), and what holds over
  every run of it. The class `Executor.Database` is proved against these steps.
*/
module Engine {
  import opened Wrappers
  import opened Text
  import opened CsvCodec
  import opened CsvFile
  import opened Ast
  import opened BTreeModel
  import opened IndexSpec
  import opened RowBuilder
  import opened Query

  /** The files by storage name, the registry of entries by storage name, and the test hook's one-shot flag. */
  datatype State = State(files: map<string, string>, entries: map<string, TableEntry>, forced: bool)

  datatype InsertOutcome =
    | RowInserted
    | StatementRejected(reason: InsertError)
    | IndexFailed(error: IndexError)
    | CannotAppend
    | AppendCut(fields: nat)  // memory ran out after this many fields of the row were in the file
    | Halted  // for lack of other memory

  /**
    The memory of a statement: how many allocations of tree nodes, and of escaped
    fields, succeed before one fails, and where it runs out for anything else.
  */
  datatype Supply = Supply(nodes: nat, fields: nat, halt: Halt)

  function FileOf(s: State, name: string): Option<string> {
    if name in s.files then Some(s.files[name]) else None
  }

  ghost function EntryOf(s: State, name: string): TableEntry {
    EntryIn(s.entries, name)
  }

  ghost predicate SoundState(s: State) {
    forall name :: name in s.entries ==> Sound(s.entries[name])
  }

  /** The entry of this table, if loaded, is what a scan of its file would give. */
  ghost predicate AgreesAt(s: State, name: string) {
    Agrees(EntryOf(s, name), FileOf(s, name))
  }

  /** Every loaded entry is what a scan of its file would give. */
  ghost predicate Consistent(s: State) {
    forall name :: name in s.entries ==> AgreesAt(s, name)
  }

  lemma ConsistentIsSound(s: State)
    requires Consistent(s)
    ensures SoundState(s)
  {
  }

  // ----- Steps ---------------------------------------------------------------

  /** `table_index_register_row` and, when it fails, the invalidation by `execute_insert`. */
  ghost function Registered(s: State, name: string, load: Load, offset: nat): (r: (State, InsertOutcome))
    requires Sound(load.entry) && load.entry.loaded
  {
    if s.forced then (s.(forced := false, entries := s.entries[name := UNLOADED]), IndexFailed(Forced))
    else
      var reg := RegisterIn(load.entry, load.entry.nextId, offset, load.left);
      match reg.error
      case Some(error) => (s.(entries := s.entries[name := UNLOADED]), IndexFailed(error))
      case None => (s.(entries := s.entries[name := reg.entry]), RowInserted)
  }

  /**
    The tail of `execute_insert`. When the append runs out of memory in mid-row the
    statement just fails: what was written stays, and so does the loaded entry.
  */
  ghost function AppendAndRegister(s: State, name: string, load: Load, row: seq<string>, fields: nat)
    : (r: (State, InsertOutcome))
    requires name in s.files && Sound(load.entry) && load.entry.loaded
  {
    var bytes := s.files[name];
    if fields < |row| then (s.(files := s.files[name := Appended(bytes, row[..fields])]), AppendCut(fields))
    else Registered(s.(files := s.files[name := Appended(bytes, row)]), name, load, AppendOffset(bytes))
  }

  /** `ensure_loaded` in a statement. */
  ghost function LoadFor(s: State, name: string, supply: Supply): (State, Load) {
    var (entries, load) := LoadIn(s.entries, name, FileOf(s, name), supply.nodes, supply.halt);
    (s.(entries := entries), load)
  }

  lemma LoadForTouchesOne(s: State, name: string, supply: Supply)
    requires SoundState(s)
    ensures var (s1, load) := LoadFor(s, name, supply);
      && SoundState(s1) && Sound(load.entry) && EntryOf(s1, name) == load.entry
      && (load.error.None? <==> load.entry.loaded) && (load.error.None? ==> name in s1.entries)
      && (s1 == s || s1 == s.(entries := s.entries[name := load.entry]))
      && (AgreesAt(s, name) ==> AgreesAt(s1, name))
  {
    hide LoadIn, Sound, Agrees;
    UnloadedIsSound();
    LoadInTouchesOne(s.entries, name, FileOf(s, name), supply.nodes, supply.halt);
  }

  /** `execute_insert`, with the memory that `supply` grants. */
  ghost function ExecInsert(s: State, schema: Schema, stmt: InsertStatement, supply: Supply)
    : (r: (State, InsertOutcome))
    requires SoundState(s)
  {
    var name := schema.storageName;
    var invalid := ValidationError(stmt.columns, stmt.values, schema.columns);
    if supply.halt.AtStart? then (s, Halted)
    else if invalid.Some? then (s, StatementRejected(invalid.value))
    else
      var (s1, load) := LoadFor(s, name, supply);
      LoadForTouchesOne(s, name, supply);
      if load.error.Some? then (s1, IndexFailed(load.error.value))
      else if supply.halt.AfterLoad? then (s1, Halted)
      else
        var (duplicate, row) := BuildRow(stmt.columns, stmt.values, schema.columns);
        if duplicate.Some? then (s1, StatementRejected(duplicate.value))
        else if name !in s.files then (s1, CannotAppend)
        else AppendAndRegister(s1, name, load, row, supply.fields)
  }

  /** `execute_index_select` with its columns resolved. */
  ghost function ExecSelectById(s: State, name: string, width: nat, selected: seq<int>, text: string, supply: Supply)
    : (r: (State, Answer))
    requires SoundState(s) && InRange(selected, width)
  {
    match ParseIntStrict(text)
    case None => (s, Failed(NotAnInteger))
    case Some(id) =>
      var (s1, load) := LoadFor(s, name, supply);
      LoadForTouchesOne(s, name, supply);
      if load.error.Some? then (s1, Failed(LookupFailed(load.error.value)))
      else if supply.halt.AfterLoad? then (s1, Failed(NoMemoryLeft))
      else if name !in s.files then
        (s1, if id in Contents(load.entry.tree.root) then Failed(LookupFailed(CannotOpen)) else Rows([]))
      else (s1, IndexSelect(Contents(load.entry.tree.root), s.files[name], width, selected, id))
  }

  /** The filter of a WHERE on an ordinary column. */
  function FilterOf(stmt: SelectStatement, schema: Schema): Result<Filter> {
    if stmt.where.None? then Ok(All)
    else if stmt.where.value.column !in schema.columns then Err(stmt.where.value.column)
    else Ok(Equals(FirstIndex(schema.columns, stmt.where.value.column), stmt.where.value.value))
  }

  predicate IsById(stmt: SelectStatement) {
    stmt.where.Some? && stmt.where.value.column == "id"
  }

  /** `execute_select`: by the index for `WHERE id`, by scanning otherwise. */
  ghost function ExecSelect(s: State, schema: Schema, stmt: SelectStatement, supply: Supply): (r: (State, Answer))
    requires SoundState(s)
  {
    var name, width := schema.storageName, |schema.columns|;
    if supply.halt.AtStart? then (s, Failed(NoMemoryLeft))
    else
      match Selection(stmt, schema)
      case Err(column) => (s, Failed(UnknownSelectColumn(column)))
      case Ok(selected) =>
        if selected == [] then (s, Failed(NothingSelected))
        else if IsById(stmt) then ExecSelectById(s, name, width, selected, stmt.where.value.value, supply)
        else
          match FilterOf(stmt, schema)
          case Err(column) => (s, Failed(UnknownWhereColumn(column)))
          case Ok(filter) =>
            if name !in s.files then (s, Failed(LookupFailed(CannotOpen)))
            else if supply.halt.InScan? || supply.halt.AfterLoad? then (s, Failed(NoMemoryLeft))
            else (s, LinearSelect(s.files[name], width, filter, selected))
  }

  /** `table_index_invalidate`. */
  ghost function Invalidated(s: State, name: string): State {
    if name in s.entries then s.(entries := s.entries[name := UNLOADED]) else s
  }

  /** `table_index_registry_reset`. */
  function ResetState(s: State): State {
    s.(entries := map[], forced := false)
  }

  datatype Step =
    | InsertStep(schema: Schema, insert: InsertStatement, supply: Supply)
    | SelectStep(schema: Schema, select: SelectStatement, supply: Supply)
    | InvalidateStep(name: string)
    | ForceFailureStep
    | ResetStep
    | RewriteStep(name: string, bytes: string)  // the benchmark rewrites a file and resets the registry

  ghost function Next(s: State, step: Step): State
    requires SoundState(s)
  {
    match step
    case InsertStep(schema, insert, supply) => ExecInsert(s, schema, insert, supply).0
    case SelectStep(schema, select, supply) => ExecSelect(s, schema, select, supply).0
    case InvalidateStep(name) => Invalidated(s, name)
    case ForceFailureStep => s.(forced := true)
    case ResetStep => ResetState(s)
    case RewriteStep(name, bytes) => ResetState(s.(files := s.files[name := bytes]))
  }

  // ----- Invariants of one step ----------------------------------------------

  lemma InsertKeepsSound(s: State, schema: Schema, stmt: InsertStatement, supply: Supply)
    requires SoundState(s)
    ensures SoundState(ExecInsert(s, schema, stmt, supply).0)
  {
    hide Sound, RegisterIn, LoadFor, BuildRow, ValidationError, Appended, AppendOffset, AgreesAt;
    var name := schema.storageName;
    var (s1, load) := LoadFor(s, name, supply);
    LoadForTouchesOne(s, name, supply);
    UnloadedIsSound();
    if load.error.None? && name in s.files {
      RegisterKeepsSound(load.entry, load.entry.nextId, AppendOffset(s.files[name]), load.left);
    }
  }

  lemma UnloadedIsSound()
    ensures Sound(UNLOADED)
  {
  }

  lemma SelectKeepsSound(s: State, schema: Schema, stmt: SelectStatement, supply: Supply)
    requires SoundState(s)
    ensures SoundState(ExecSelect(s, schema, stmt, supply).0)
  {
    hide SoundState, LoadFor, LinearSelect, IndexSelect, AgreesAt;
    LoadForTouchesOne(s, schema.storageName, supply);
  }

  lemma NextKeepsSound(s: State, step: Step)
    requires SoundState(s)
    ensures SoundState(Next(s, step))
  {
    match step
    case InsertStep(schema, insert, supply) => InsertKeepsSound(s, schema, insert, supply);
    case SelectStep(schema, select, supply) => SelectKeepsSound(s, schema, select, supply);
    case _ =>
  }

  /** The row an INSERT would write, if it gets that far. */
  function RowOf(schema: Schema, stmt: InsertStatement): Option<seq<string>> {
    if ValidationError(stmt.columns, stmt.values, schema.columns).Some? then None
    else
      var (duplicate, row) := BuildRow(stmt.columns, stmt.values, schema.columns);
      if duplicate.Some? then None else Some(row)
  }

  /** The order in which an INSERT names its columns does not matter to what is refused and what is written. */
  lemma RowOfIgnoresOrder(schema: Schema, stmt: InsertStatement, stmt': InsertStatement)
    requires |stmt.columns| == |stmt.values| && |stmt'.columns| == |stmt'.values|
    requires multiset(Pairs(stmt.columns, stmt.values)) == multiset(Pairs(stmt'.columns, stmt'.values))
    ensures RowOf(schema, stmt) == RowOf(schema, stmt')
  {
    ValidationIgnoresOrder(stmt.columns, stmt.values, stmt'.columns, stmt'.values, schema.columns);
    OrderDoesNotMatter(stmt.columns, stmt.values, stmt'.columns, stmt'.values, schema.columns);
  }

  /** Values are C strings and the row, if there is one, fits one line buffer. */
  predicate Short(schema: Schema, stmt: InsertStatement) {
    RowOf(schema, stmt).Some? ==> |EncodeRow(RowOf(schema, stmt).value)| <= LINE_MAX
  }

  predicate CStrings(stmt: InsertStatement) {
    forall i :: 0 <= i < |stmt.values| ==> NUL !in stmt.values[i]
  }

  lemma RowOfIsOneLine(schema: Schema, stmt: InsertStatement)
    requires RowOf(schema, stmt).Some? && CStrings(stmt) && schema.Valid()
    ensures OneLineRow(RowOf(schema, stmt).value) && |RowOf(schema, stmt).value| == |schema.columns| > 0
  {
  }
}
