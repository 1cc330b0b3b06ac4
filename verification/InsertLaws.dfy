/**
  Which INSERTs are accepted, which row they store, and what every other one is
  refused with, said by the statement, the schema and the state alone.
*/
module InsertLaws {
  import opened Wrappers
  import opened Text
  import opened CsvFile
  import opened Ast
  import opened IndexSpec
  import opened RowBuilder
  import opened Engine
  import opened EngineLaws

  /** As many values as columns, each pair acceptable, no column named twice. */
  ghost predicate Accepted(schema: Schema, stmt: InsertStatement) {
    && |stmt.columns| == |stmt.values|
    && (forall i :: 0 <= i < |stmt.columns| ==> Acceptable(stmt.columns[i], stmt.values[i], schema.columns))
    && forall i, j :: 0 <= i < j < |stmt.columns| ==> stmt.columns[i] != stmt.columns[j]
  }

  /** Every value stands where its column stands in the schema; columns that are not named are empty. */
  ghost predicate IsRowFor(schema: Schema, stmt: InsertStatement, row: seq<string>)
    requires |stmt.columns| == |stmt.values|
  {
    && |row| == |schema.columns|
    && (forall i, p: nat :: 0 <= i < |stmt.columns| && StandsAt(schema.columns, stmt.columns[i], p) ==>
          row[p] == stmt.values[i])
    && forall p :: 0 <= p < |row| && schema.columns[p] !in stmt.columns ==> row[p] == ""
  }

  /** An INSERT has a row exactly when it is accepted, and then it is that row. */
  lemma RowOfMeans(schema: Schema, stmt: InsertStatement)
    ensures RowOf(schema, stmt).Some? <==> Accepted(schema, stmt)
    ensures Accepted(schema, stmt) ==> IsRowFor(schema, stmt, RowOf(schema, stmt).value)
  {
    hide ValidationError, BuildRow;
    ValidMeans(schema, stmt);
    if Accepted(schema, stmt) {
      var row := RowOf(schema, stmt).value;
      forall i, p: nat | 0 <= i < |stmt.columns| && StandsAt(schema.columns, stmt.columns[i], p)
        ensures row[p] == stmt.values[i]
      {
        FirstIndexIs(schema.columns, stmt.columns[i], p);
      }
    }
  }

  lemma ValidMeans(schema: Schema, stmt: InsertStatement)
    ensures ValidationError(stmt.columns, stmt.values, schema.columns).None? <==>
      && |stmt.columns| == |stmt.values|
      && forall i :: 0 <= i < |stmt.columns| ==> Acceptable(stmt.columns[i], stmt.values[i], schema.columns)
  {
    hide ValidationError;
    forall i | 0 <= i < |stmt.columns| == |stmt.values|
      ensures PairError(stmt.columns[i], stmt.values[i], schema.columns).None? <==>
        Acceptable(stmt.columns[i], stmt.values[i], schema.columns)
    {
    }
  }

  /** Pair `k` is the first that is not acceptable, or all are and `k` is their number. */
  predicate FirstBad(schema: Schema, stmt: InsertStatement, k: nat) {
    && k <= |stmt.columns| == |stmt.values|
    && (forall i :: 0 <= i < k ==> Acceptable(stmt.columns[i], stmt.values[i], schema.columns))
    && (k < |stmt.columns| ==> !Acceptable(stmt.columns[k], stmt.values[k], schema.columns))
  }

  function Complaint(schema: Schema, stmt: InsertStatement, k: nat): InsertError
    requires k < |stmt.columns|
  {
    if stmt.columns[k] == "id" then ExplicitId
    else if stmt.columns[k] !in schema.columns then UnknownColumn(stmt.columns[k])
    else LineEndInValue
  }

  /** A bad statement is refused before the index is touched, with the complaint about its first bad pair. */
  lemma BadInsertRefused(s: State, schema: Schema, stmt: InsertStatement, supply: Supply, k: nat)
    requires SoundState(s)
    ensures supply.halt.AtStart? ==> ExecInsert(s, schema, stmt, supply) == (s, Halted)
    ensures !supply.halt.AtStart? && |stmt.columns| != |stmt.values| ==>
      ExecInsert(s, schema, stmt, supply) == (s, StatementRejected(CountMismatch))
    ensures !supply.halt.AtStart? && FirstBad(schema, stmt, k) && k < |stmt.columns| ==>
      ExecInsert(s, schema, stmt, supply) == (s, StatementRejected(Complaint(schema, stmt, k)))
  {
    hide LoadFor, BuildRow, AppendAndRegister, Acceptable, Complaint;
    if |stmt.columns| != |stmt.values| || FirstBad(schema, stmt, k) {
      ComplaintIsFirst(schema, stmt, k);
    }
  }

  lemma ComplaintIsFirst(schema: Schema, stmt: InsertStatement, k: nat)
    requires |stmt.columns| != |stmt.values| || FirstBad(schema, stmt, k)
    ensures ValidationError(stmt.columns, stmt.values, schema.columns) ==
      if |stmt.columns| != |stmt.values| then Some(CountMismatch)
      else if k == |stmt.columns| then None
      else Some(Complaint(schema, stmt, k))
  {
    FirstComplaint(stmt.columns, stmt.values, schema.columns, k);
  }

  /**
    A good statement for which the index cannot be loaded is refused: no file, no
    memory for the tree, or a line that does not parse; the entry is unloaded and
    nothing is written.
  */
  lemma InsertNeedsIndex(s: State, schema: Schema, stmt: InsertStatement, supply: Supply)
    requires SoundState(s) && supply.halt.Never? && FirstBad(schema, stmt, |stmt.columns|)
    requires !EntryOf(s, schema.storageName).loaded
    ensures var name := schema.storageName;
      var (s', outcome) := ExecInsert(s, schema, stmt, supply);
      && (name !in s.files ==> outcome == IndexFailed(CannotOpen))
      && (name in s.files ==>
            && (supply.nodes < Nodes(TreeOf(RowsOf(s, name))) ==> outcome == IndexFailed(NoMemory))
            && (supply.nodes >= Nodes(TreeOf(RowsOf(s, name))) && !Scans(s, name) ==>
                  outcome == IndexFailed(BadFile(ScanFile(s.files[name]).error.value))))
      && (name !in s.files || supply.nodes < Nodes(TreeOf(RowsOf(s, name))) || !Scans(s, name) ==>
            s' == s.(entries := s.entries[name := UNLOADED]))
  {
    hide Rebuild, BuildRow, AppendAndRegister, ValidationError, Acceptable, ScanFile, TreeOf, Nodes;
    ComplaintIsFirst(schema, stmt, |stmt.columns|);
    RebuildGivesLoaded(FileOf(s, schema.storageName), supply.nodes);
  }

  /** A column named twice is refused once the index is there, where it first comes up again; nothing is written. */
  lemma DuplicateRefused(s: State, schema: Schema, stmt: InsertStatement, supply: Supply, k: nat)
    requires SoundState(s) && !supply.halt.AtStart? && FirstBad(schema, stmt, |stmt.columns|)
    requires schema.storageName in s.files && CanUse(s, schema.storageName, supply)
    requires k < |stmt.columns| && stmt.columns[k] in stmt.columns[..k]
    requires forall i, j :: 0 <= i < j < k ==> stmt.columns[i] != stmt.columns[j]
    ensures var (s', outcome) := ExecInsert(s, schema, stmt, supply);
      s'.files == s.files && outcome == StatementRejected(DuplicateColumn(stmt.columns[k]))
  {
    hide LoadFor, BuildRow, AppendAndRegister, ValidationError, Acceptable, CanUse, AgreesAt, Sound;
    ComplaintIsFirst(schema, stmt, |stmt.columns|);
    FirstDuplicate(stmt.columns, stmt.values, schema.columns, k);
    LoadForTouchesOne(s, schema.storageName, supply);
    LoadsExactly(s, schema.storageName, supply);
  }

  /** A forced failure comes after the row is written, is reported once, and unloads the index. */
  lemma ForcedInsertFails(s: State, schema: Schema, stmt: InsertStatement, supply: Supply)
    requires SoundState(s) && AgreesAt(s, schema.storageName) && schema.Valid() && s.forced
    requires Reaches(s, schema, stmt, supply) && |RowOf(schema, stmt).value| <= supply.fields
    ensures var name := schema.storageName;
      ExecInsert(s, schema, stmt, supply) ==
        (State(s.files[name := Appended(s.files[name], RowOf(schema, stmt).value)],
               s.entries[name := UNLOADED], false), IndexFailed(Forced))
  {
    hide LoadFor, RegisterIn, Appended, AppendOffset, RowOf, CanUse, Sound, ExecInsert;
    var name := schema.storageName;
    InsertPath(s, schema, stmt, supply);
    LoadForTouchesOne(s, name, supply);
    LoadsExactly(s, name, supply);
    var (s1, load) := LoadFor(s, name, supply);
    assert s1.entries[name := UNLOADED] == s.entries[name := UNLOADED];
    ForcedAppend(s1, name, load, RowOf(schema, stmt).value, supply.fields);
  }

  lemma ForcedAppend(s: State, name: string, load: Load, row: seq<string>, fields: nat)
    requires s.forced && name in s.files && Sound(load.entry) && load.entry.loaded && |row| <= fields
    ensures AppendAndRegister(s, name, load, row, fields) ==
      (State(s.files[name := Appended(s.files[name], row)], s.entries[name := UNLOADED], false), IndexFailed(Forced))
  {
    hide RegisterIn, Appended, Sound;
  }

  /** A row that is inserted is in the file, and nothing else is changed there, whatever the index knew. */
  lemma InsertedRowIsWritten(s: State, schema: Schema, stmt: InsertStatement, supply: Supply)
    requires SoundState(s) && schema.Valid() && ExecInsert(s, schema, stmt, supply).1.RowInserted?
    ensures var name, s' := schema.storageName, ExecInsert(s, schema, stmt, supply).0;
      && name in s.files && Accepted(schema, stmt) && RowOf(schema, stmt).Some?
      && s'.files == s.files[name := Appended(s.files[name], RowOf(schema, stmt).value)]
  {
    hide LoadFor, RegisterIn, Appended, AppendOffset, RowOf, Sound, ExecInsert, AgreesAt;
    InsertPath(s, schema, stmt, supply);
    LoadForTouchesOne(s, schema.storageName, supply);
    RowOfMeans(schema, stmt);
  }

  /** With the index loaded, a good statement stops for lack of other memory, or of a file; nothing changes. */
  lemma LoadedInsertStops(s: State, schema: Schema, stmt: InsertStatement, supply: Supply)
    requires SoundState(s) && EntryOf(s, schema.storageName).loaded && FirstBad(schema, stmt, |stmt.columns|)
    ensures supply.halt.AfterLoad? ==> ExecInsert(s, schema, stmt, supply) == (s, Halted)
    ensures supply.halt.Never? && Accepted(schema, stmt) && schema.storageName !in s.files ==>
      ExecInsert(s, schema, stmt, supply) == (s, CannotAppend)
  {
    hide LoadFor, BuildRow, AppendAndRegister, ValidationError, Acceptable, Sound;
    ComplaintIsFirst(schema, stmt, |stmt.columns|);
    LoadedIsUsed(s, schema.storageName, supply);
  }
}
