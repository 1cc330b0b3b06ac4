/**
  The executor over the real objects (src/execution/executor.c): the registry of
  indexes on the heap and the CSV files. Every method is proved to take exactly
  the step of `Engine`, so the laws of `EngineLaws` hold of every run of this code.
*/
module Executor {
  import opened Wrappers
  import opened Text
  import CsvCodec
  import opened CsvFile
  import opened Ast
  import opened BTreeModel
  import opened IndexSpec
  import opened RowBuilder
  import opened Query
  import opened Engine
  import opened RunLaws
  import opened TableIndexes

  /** Where a scan stands: the rows collected so far come before the answer from the rest. */
  function Before(rows: seq<seq<string>>, answer: Answer): Answer {
    if answer.Failed? then answer else Rows(rows + answer.rows)
  }

  /** What a scan still has to answer from `pos` on. */
  ghost function Remaining(bytes: string, pos: nat, width: nat, filter: Filter, selected: seq<int>, id: int): Answer
    requires pos <= |bytes| && InRange(selected, width) && (filter.Equals? ==> filter.position < width)
  {
    LinearFrom(ScanFrom(bytes, pos), width, filter, selected, id)
  }

  lemma RemainingStep(bytes: string, pos: nat, width: nat, filter: Filter, selected: seq<int>, id: int)
    requires pos < |bytes| && InRange(selected, width) && (filter.Equals? ==> filter.position < width)
    ensures var text, next := LineAt(bytes, pos), LineEndAt(bytes, pos);
      Remaining(bytes, pos, width, filter, selected, id) ==
        if text == "" then Remaining(bytes, next, width, filter, selected, id)
        else AfterLine(CsvCodec.ParseCsv(text), bytes, next, width, filter, selected, id)
  {
  }

  /** The answer once the line before `next` has been parsed. */
  ghost function AfterLine(parsed: Result<seq<string>>, bytes: string, next: nat, width: nat, filter: Filter,
                           selected: seq<int>, id: int): Answer
    requires next <= |bytes| && InRange(selected, width) && (filter.Equals? ==> filter.position < width)
  {
    match parsed
    case Err(message) => Failed(BadLine(message))
    case Ok(fields) =>
      if |fields| != width then Failed(WrongFieldCount)
      else Before(if Matches(filter, fields) then [Project(fields, selected, id)] else [],
                  Remaining(bytes, next, width, filter, selected, id + 1))
  }

  lemma RemainingEnds(bytes: string, width: nat, filter: Filter, selected: seq<int>, id: int)
    requires InRange(selected, width) && (filter.Equals? ==> filter.position < width)
    ensures Remaining(bytes, |bytes|, width, filter, selected, id) == Rows([])
    ensures LinearSelect(bytes, width, filter, selected) ==
      if bytes == "" then Failed(EmptyFile)
      else Before([], Remaining(bytes, LineEndAt(bytes, 0), width, filter, selected, 1))
  {
  }

  lemma BeforeTwice(rows: seq<seq<string>>, more: seq<seq<string>>, answer: Answer)
    ensures Before(rows, Before(more, answer)) == Before(rows + more, answer)
    ensures Before(rows, Rows([])) == Rows(rows) && rows + [] == rows
  {
  }

  /** The scanning loop of `execute_select`. */
  method SelectByScan(bytes: string, width: nat, filter: Filter, selected: seq<int>) returns (answer: Answer)
    requires InRange(selected, width) && (filter.Equals? ==> filter.position < width)
    ensures answer == LinearSelect(bytes, width, filter, selected)
  {
    hide ScanFrom, LinearFrom, LinearSelect, Remaining, Project, LineAt, ScanFile;
    RemainingEnds(bytes, width, filter, selected, 1);
    if bytes == "" {
      return Failed(EmptyFile);
    }
    var buffer: seq<seq<string>> := [];
    var currentId := 1;
    var pos := LineEndAt(bytes, 0);
    while pos < |bytes|
      invariant pos <= |bytes|
      invariant LinearSelect(bytes, width, filter, selected) ==
        Before(buffer, Remaining(bytes, pos, width, filter, selected, currentId))
    {
      RemainingStep(bytes, pos, width, filter, selected, currentId);
      var text;
      text, pos := ReadLine(bytes, pos);
      if text != "" {
        var parsed := CsvCodec.CsvParseLine(text);
        if parsed.Err? {
          return Failed(BadLine(parsed.message));
        }
        if |parsed.value| != width {
          return Failed(WrongFieldCount);
        }
        var id := currentId;
        currentId := currentId + 1;
        BeforeTwice(buffer, if Matches(filter, parsed.value) then [Project(parsed.value, selected, id)] else [],
                    Remaining(bytes, pos, width, filter, selected, currentId));
        if filter.All? || parsed.value[filter.position] == filter.value {
          buffer := PushSelected(buffer, parsed.value, selected, id);
        }
      }
    }
    RemainingEnds(bytes, width, filter, selected, currentId);
    BeforeTwice(buffer, [], Rows([]));
    answer := Rows(buffer);
  }

  /** How `execute_insert` reacts to the outcome of `table_index_register_row`. */
  lemma RegisteredSteps(s: State, name: string, offset: nat, budget: nat)
    requires name in s.entries && Sound(s.entries[name]) && s.entries[name].loaded
    ensures var e := s.entries[name];
      var reg := RegisterRowIn(e, FileOf(s, name), e.nextId, offset, budget);
      Registered(s, name, Load(e, None, budget), offset) ==
        if s.forced then (s.(forced := false, entries := s.entries[name := UNLOADED]), IndexFailed(Forced))
        else if reg.error.Some? then (s.(entries := s.entries[name := UNLOADED]), IndexFailed(reg.error.value))
        else (s.(entries := s.entries[name := reg.entry]), RowInserted)
  {
  }

  /** The files and the registry, with the steps of the executor as methods. */
  class Database {
    var files: map<string, string>
    const registry: Registry

    ghost predicate Valid()
      reads this, registry, registry.repr, registry.slots
    {
      registry.Valid() && this !in registry.repr
    }

    /** The state of `Engine` this object stands for. */
    ghost function Abs(): State
      reads this, registry
    {
      State(files, registry.entries, registry.forceNextRegisterFailure)
    }

    constructor (files: map<string, string>)
      ensures Valid() && Abs() == State(files, map[], false) && fresh(registry.repr)
    {
      this.files := files;
      registry := new Registry();
    }

    function File(name: string): Option<string>
      reads this
    {
      if name in files then Some(files[name]) else None
    }

    /** `execute_insert`. */
    method ExecuteInsert(schema: Schema, stmt: InsertStatement, supply: Supply) returns (outcome: InsertOutcome)
      requires Valid() && SoundState(Abs())
      modifies this, registry.repr
      ensures Valid() && fresh(registry.repr - old(registry.repr))
      ensures (Abs(), outcome) == ExecInsert(old(Abs()), schema, stmt, supply)
    {
      hide Registry.Valid, AppendAndRegister, LoadIn, Sound, ValidationError, BuildRow, AgreesAt;
      var name := schema.storageName;
      LoadForTouchesOne(Abs(), name, supply);
      if supply.halt.AtStart? {
        return Halted;
      }
      var invalid := ValidateInsertColumns(stmt, schema);
      if invalid.Some? {
        return StatementRejected(invalid.value);
      }
      var error, nextId, left := registry.GetNextId(name, File(name), supply.nodes, supply.halt);
      if error.Some? {
        return IndexFailed(error.value);
      }
      if supply.halt.AfterLoad? {
        return Halted;
      }
      var duplicate, row := BuildInsertRow(stmt, schema);
      if duplicate.Some? {
        return StatementRejected(duplicate.value);
      }
      if name !in files {
        return CannotAppend;
      }
      outcome := AppendThenRegister(name, row, nextId, supply.(nodes := left));
    }

    /** The append of `execute_insert`, which may stop in mid-row, and the registration. */
    method AppendThenRegister(name: string, row: seq<string>, nextId: int, supply: Supply)
      returns (outcome: InsertOutcome)
      requires Valid() && name in files && name in registry.entries && registry.entries[name].loaded
      requires Sound(registry.entries[name]) && nextId == registry.entries[name].nextId
      modifies this, registry.repr
      ensures Valid() && fresh(registry.repr - old(registry.repr))
      ensures var s := old(Abs());
        (Abs(), outcome) == AppendAndRegister(s, name, Load(s.entries[name], None, supply.nodes), row, supply.fields)
    {
      hide Registry.Valid, Registered, RegisterRowIn, Sound, Appended, AppendOffset;
      var ok, bytes, offset := AppendRow(files[name], row, supply.fields);
      files := files[name := bytes];
      if !ok {
        return AppendCut(supply.fields);
      }
      RegisteredSteps(Abs(), name, offset, supply.nodes);
      var error, left := registry.RegisterRow(name, File(name), nextId, offset, supply.nodes);
      if error.Some? {
        registry.Invalidate(name);
        assert registry.entries == old(registry.entries)[name := UNLOADED];
        return IndexFailed(error.value);
      }
      outcome := RowInserted;
    }

    /** `execute_index_select`: one row, read at the offset the index gives. */
    method ExecuteIndexSelect(name: string, width: nat, selected: seq<int>, text: string, supply: Supply)
      returns (answer: Answer)
      requires Valid() && SoundState(Abs()) && InRange(selected, width)
      modifies registry.repr
      ensures Valid() && fresh(registry.repr - old(registry.repr))
      ensures (Abs(), answer) == ExecSelectById(old(Abs()), name, width, selected, text, supply)
    {
      hide Registry.Valid, LoadIn, Sound, Contents, ReadRowAt, ParseIntStrict, AgreesAt;
      var id := ParseIntStrict(text);
      if id.None? {
        return Failed(NotAnInteger);
      }
      UnloadedIsSound();
      LoadForTouchesOne(Abs(), name, supply);
      var error, offset, left := registry.FindRow(name, File(name), id.value, supply.nodes, supply.halt);
      if error.Some? {
        return Failed(LookupFailed(error.value));
      }
      if supply.halt.AfterLoad? {
        return Failed(NoMemoryLeft);
      }
      if offset.None? {
        return Rows([]);
      }
      if name !in files {
        return Failed(LookupFailed(CannotOpen));
      }
      var read := ReadRowAtOffset(files[name], offset.value);
      if read.Err? {
        return Failed(BadLine(read.message));
      }
      if |read.value| != width {
        return Failed(WrongFieldCount);
      }
      var buffer := PushSelected([], read.value, selected, id.value);
      assert buffer == [Project(read.value, selected, id.value)];
      answer := Rows(buffer);
    }

    /** `execute_select`; `slots` is how much of its index array, one slot per schema column, it has written. */
    method ExecuteSelect(schema: Schema, stmt: SelectStatement, supply: Supply)
      returns (answer: Answer, ghost slots: nat)
      requires Valid() && SoundState(Abs())
      modifies registry.repr
      ensures Valid() && fresh(registry.repr - old(registry.repr))
      ensures (Abs(), answer) == ExecSelect(old(Abs()), schema, stmt, supply)
      ensures slots == if supply.halt.AtStart? then 0 else SlotsWritten(stmt, schema)
    {
      hide Registry.Valid, LinearSelect, ExecSelectById;
      var name, width := schema.storageName, |schema.columns|;
      if supply.halt.AtStart? {
        return Failed(NoMemoryLeft), 0;
      }
      var selected;
      selected, slots := BuildSelectIndexes(stmt, schema);
      if selected.Err? {
        return Failed(UnknownSelectColumn(selected.message)), slots;
      }
      if |selected.value| == 0 {
        return Failed(NothingSelected), slots;
      }
      var filter := All;
      if stmt.where.Some? && stmt.where.value.column != "id" {
        var whereIndex := IndexOf(schema.columns, stmt.where.value.column);
        if whereIndex < 0 {
          return Failed(UnknownWhereColumn(stmt.where.value.column)), slots;
        }
        filter := Equals(whereIndex, stmt.where.value.value);
      }
      if stmt.where.Some? && stmt.where.value.column == "id" {
        answer := ExecuteIndexSelect(name, width, selected.value, stmt.where.value.value, supply);
        return;
      }
      if name !in files {
        return Failed(LookupFailed(CannotOpen)), slots;
      }
      if supply.halt.InScan? || supply.halt.AfterLoad? {
        return Failed(NoMemoryLeft), slots;
      }
      answer := SelectByScan(files[name], width, filter, selected.value);
    }

    /** `table_index_invalidate`, for one table. */
    method Invalidate(name: string)
      requires Valid()
      modifies registry.repr
      ensures Valid() && fresh(registry.repr - old(registry.repr)) && Abs() == Invalidated(old(Abs()), name)
    {
      registry.Invalidate(name);
    }

    /** `table_index_registry_reset`. */
    method Reset()
      requires Valid()
      modifies registry
      ensures Valid() && fresh(registry.repr - old(registry.repr)) && Abs() == ResetState(old(Abs()))
    {
      registry.Reset();
    }

    /** What the benchmark does between its runs: a new file, and a reset because of it. */
    method Rewrite(name: string, bytes: string)
      requires Valid()
      modifies this, registry
      ensures Valid() && fresh(registry.repr - old(registry.repr))
      ensures Abs() == ResetState(old(Abs()).(files := old(files)[name := bytes]))
    {
      files := files[name := bytes];
      registry.Reset();
    }

    /** `table_index_force_next_register_failure`. */
    method ForceNextRegisterFailure()
      requires Valid()
      modifies registry
      ensures Valid() && registry.repr == old(registry.repr) && Abs() == old(Abs()).(forced := true)
    {
      registry.ForceNextRegisterFailure();
    }

    method TakeStep(step: Step)
      requires Valid() && SoundState(Abs())
      modifies this, registry.repr
      ensures Valid() && fresh(registry.repr - old(registry.repr)) && Abs() == Next(old(Abs()), step)
    {
      hide Registry.Valid, ExecInsert, ExecSelect, SoundState;
      match step
      case InsertStep(schema, insert, supply) =>
        var outcome := ExecuteInsert(schema, insert, supply);
      case SelectStep(schema, select, supply) =>
        var answer, slots := ExecuteSelect(schema, select, supply);
      case InvalidateStep(name) => Invalidate(name);
      case ForceFailureStep => ForceNextRegisterFailure();
      case ResetStep => Reset();
      case RewriteStep(name, bytes) => Rewrite(name, bytes);
    }

    /** The statements of a program one after the other: a run of the state machine. */
    method Perform(steps: seq<Step>)
      requires Valid() && SoundState(Abs())
      modifies this, registry.repr
      ensures Valid() && fresh(registry.repr - old(registry.repr)) && SoundState(Abs())
      ensures Abs() == Run(old(Abs()), steps)
    {
      hide Registry.Valid, Next, SoundState;
      var index := 0;
      while index < |steps|
        invariant index <= |steps| && Valid() && fresh(registry.repr - old(registry.repr)) && SoundState(Abs())
        invariant Run(Abs(), steps[index..]) == Run(old(Abs()), steps)
      {
        NextKeepsSound(Abs(), steps[index]);
        assert steps[index..][0] == steps[index] && steps[index..][1..] == steps[index + 1..];
        TakeStep(steps[index]);
        index := index + 1;
      }
    }
  }
}
