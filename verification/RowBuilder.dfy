/** Checking an INSERT and building the row to store (src/execution/executor.c, lines 47-165). */
module RowBuilder {
  import opened Wrappers
  import opened Text
  import opened Ast

  datatype InsertError =
    | CountMismatch
    | ExplicitId
    | UnknownColumn(name: string)
    | LineEndInValue
    | DuplicateColumn(name: string)

  predicate ContainsNewline(value: string) {
    '\n' in value || '\r' in value
  }

  // ----- Validation ----------------------------------------------------------

  /** The complaint about one (column, value) pair. */
  function PairError(column: string, value: string, schemaColumns: seq<string>): Option<InsertError> {
    if column == "id" then Some(ExplicitId)
    else if column !in schemaColumns then Some(UnknownColumn(column))
    else if ContainsNewline(value) then Some(LineEndInValue)
    else None
  }

  /** The first complaint about a statement. */
  function ValidationError(columns: seq<string>, values: seq<string>, schemaColumns: seq<string>)
    : (e: Option<InsertError>)
    ensures e.None? <==> (
      && |columns| == |values|
      && forall i :: 0 <= i < |columns| ==> PairError(columns[i], values[i], schemaColumns).None?)
  {
    if |columns| != |values| then Some(CountMismatch)
    else if columns == [] then None
    else if PairError(columns[0], values[0], schemaColumns).Some? then PairError(columns[0], values[0], schemaColumns)
    else ValidationError(columns[1..], values[1..], schemaColumns)
  }

  /** A column of the schema other than `id`, and a value without a line end. */
  predicate Acceptable(column: string, value: string, schemaColumns: seq<string>) {
    column != "id" && column in schemaColumns && '\n' !in value && '\r' !in value
  }

  /** A statement is accepted when counts match and every pair is acceptable; else the first bad pair `k` is blamed. */
  lemma {:induction false} FirstComplaint(columns: seq<string>, values: seq<string>, schemaColumns: seq<string>, k: nat)
    requires |columns| == |values| ==>
      && k <= |columns| && (forall i :: 0 <= i < k ==> Acceptable(columns[i], values[i], schemaColumns))
      && (k < |columns| ==> !Acceptable(columns[k], values[k], schemaColumns))
    ensures ValidationError(columns, values, schemaColumns) ==
      if |columns| != |values| then Some(CountMismatch)
      else if k == |columns| then None
      else if columns[k] == "id" then Some(ExplicitId)
      else if columns[k] !in schemaColumns then Some(UnknownColumn(columns[k]))
      else Some(LineEndInValue)
  {
    if |columns| == |values| && k > 0 {
      assert Acceptable(columns[0], values[0], schemaColumns);
      FirstComplaint(columns[1..], values[1..], schemaColumns, k - 1);
    }
  }

  /** `validate_insert_columns`. */
  method ValidateInsertColumns(statement: InsertStatement, schema: Schema) returns (e: Option<InsertError>)
    ensures e == ValidationError(statement.columns, statement.values, schema.columns)
  {
    var columns, values := statement.columns, statement.values;
    if |columns| != |values| {
      return Some(CountMismatch);
    }
    var index := 0;
    while index < |columns|
      invariant index <= |columns|
      invariant ValidationError(columns, values, schema.columns) ==
        ValidationError(columns[index..], values[index..], schema.columns)
    {
      assert columns[index..][1..] == columns[index + 1..] && values[index..][1..] == values[index + 1..];
      if columns[index] == "id" {
        return Some(ExplicitId);
      }
      var schemaIndex := IndexOf(schema.columns, columns[index]);
      if schemaIndex < 0 {
        return Some(UnknownColumn(columns[index]));
      }
      if ContainsNewline(values[index]) {
        return Some(LineEndInValue);
      }
      index := index + 1;
    }
    e := None;
  }

  // ----- Building the row ----------------------------------------------------

  /** What slot `j` of the row holds: the value named for its column, or nothing. */
  function Slot(columns: seq<string>, values: seq<string>, schemaColumns: seq<string>, j: nat): string
    requires |columns| == |values| && j < |schemaColumns|
  {
    var name := schemaColumns[j];
    if name in columns && FirstIndex(schemaColumns, name) == j then values[FirstIndex(columns, name)] else ""
  }

  function Scatter(columns: seq<string>, values: seq<string>, schemaColumns: seq<string>): (row: seq<string>)
    requires |columns| == |values|
    ensures |row| == |schemaColumns|
    ensures forall j :: 0 <= j < |row| ==> row[j] == Slot(columns, values, schemaColumns, j)
  {
    seq(|schemaColumns|, j requires 0 <= j < |schemaColumns| => Slot(columns, values, schemaColumns, j))
  }

  ghost predicate Distinct(columns: seq<string>) {
    forall i, j :: 0 <= i < j < |columns| ==> columns[i] != columns[j]
  }

  /** The first column name that already occurred, or the length of the list. */
  function FirstRepeat(columns: seq<string>, seen: nat): (k: nat)
    requires seen <= |columns|
    ensures seen <= k <= |columns|
    ensures forall i :: seen <= i < k ==> columns[i] !in columns[..i]
    ensures k < |columns| ==> columns[k] in columns[..k]
    decreases |columns| - seen
  {
    if seen == |columns| || columns[seen] in columns[..seen] then seen else FirstRepeat(columns, seen + 1)
  }

  /** The row, unless a column is named twice: each value in the slot of its column, nothing in the others. */
  function BuildRow(columns: seq<string>, values: seq<string>, schemaColumns: seq<string>)
    : (r: (Option<InsertError>, seq<string>))
    requires |columns| == |values|
    ensures r.0.None? <==> Distinct(columns)
    ensures r.0.None? ==> |r.1| == |schemaColumns|
    ensures r.0.None? ==> forall i :: 0 <= i < |columns| && columns[i] in schemaColumns ==>
      r.1[FirstIndex(schemaColumns, columns[i])] == values[i]
    ensures r.0.None? ==> forall j :: 0 <= j < |schemaColumns| && schemaColumns[j] !in columns ==> r.1[j] == ""
    ensures r.0.Some? ==> r.0.value.DuplicateColumn? && r.0.value.name in columns
  {
    var k := FirstRepeat(columns, 0);
    if k < |columns| then (Some(DuplicateColumn(columns[k])), []) else (None, Scatter(columns, values, schemaColumns))
  }

  /** A column named twice is reported where it first comes up again. */
  lemma FirstDuplicate(columns: seq<string>, values: seq<string>, schemaColumns: seq<string>, k: nat)
    requires |columns| == |values| && k <= |columns| && (k < |columns| ==> columns[k] in columns[..k])
    requires forall i, j :: 0 <= i < j < k ==> columns[i] != columns[j]
    ensures BuildRow(columns, values, schemaColumns).0 ==
      if k == |columns| then None else Some(DuplicateColumn(columns[k]))
  {
  }

  /** `build_insert_row`, for a statement that was validated. */
  method BuildInsertRow(statement: InsertStatement, schema: Schema) returns (e: Option<InsertError>, row: seq<string>)
    requires ValidationError(statement.columns, statement.values, schema.columns).None?
    ensures (e, row) == BuildRow(statement.columns, statement.values, schema.columns)
  {
    var columns, values, names := statement.columns, statement.values, schema.columns;
    var taken := new bool[|names|](_ => false);
    row := EmptyRow(|names|);
    assert row == Scatter(columns[..0], values[..0], names);
    assert taken[..] == Taken(columns[..0], names);
    var k := 0;
    while k < |columns|
      invariant k <= |columns|
      invariant FirstRepeat(columns, 0) == FirstRepeat(columns, k)
      invariant taken[..] == Taken(columns[..k], names)
      invariant row == Scatter(columns[..k], values[..k], names)
    {
      assert PairError(columns[k], values[k], names).None?;
      var at := IndexOf(names, columns[k]);
      assert taken[..][at] == Taken(columns[..k], names)[at];
      if taken[at] {
        return Some(DuplicateColumn(columns[k])), [];
      }
      TakenStep(columns, names, k);
      ScatterStep(columns, values, names, k);
      taken[at] := true;
      row := row[at := values[k]];
      k := k + 1;
    }
    assert columns[..k] == columns && values[..k] == values;
    e := None;
  }

  method EmptyRow(n: nat) returns (row: seq<string>)
    ensures row == seq(n, _ => "")
  {
    row := [];
    while |row| < n
      invariant |row| <= n && row == seq(|row|, _ => "")
    {
      row := row + [""];
    }
  }

  /** Which slots the first columns of a statement have filled. */
  function Taken(columns: seq<string>, names: seq<string>): (t: seq<bool>)
    ensures |t| == |names|
    ensures forall j :: 0 <= j < |names| ==> t[j] == (names[j] in columns && FirstIndex(names, names[j]) == j)
  {
    seq(|names|, j requires 0 <= j < |names| => names[j] in columns && FirstIndex(names, names[j]) == j)
  }

  lemma TakenStep(columns: seq<string>, names: seq<string>, k: nat)
    requires k < |columns| && columns[k] in names
    ensures Taken(columns[..k + 1], names) == Taken(columns[..k], names)[FirstIndex(names, columns[k]) := true]
  {
  }

  lemma {:induction false} FirstIndexAppend(list: seq<string>, last: string, value: string)
    ensures FirstIndex(list + [last], value) ==
      if value in list then FirstIndex(list, value) else if value == last then |list| else -1
  {
    if list == [] {
      assert list + [last] == [last];
    } else {
      assert (list + [last])[1..] == list[1..] + [last];
      FirstIndexAppend(list[1..], last, value);
    }
  }

  lemma ScatterStep(columns: seq<string>, values: seq<string>, names: seq<string>, k: nat)
    requires k < |columns| == |values| && columns[k] in names && columns[k] !in columns[..k]
    ensures Scatter(columns[..k + 1], values[..k + 1], names) ==
      Scatter(columns[..k], values[..k], names)[FirstIndex(names, columns[k]) := values[k]]
  {
    var before := columns[..k];
    assert columns[..k + 1] == before + [columns[k]] && values[..k + 1] == values[..k] + [values[k]];
    forall j | 0 <= j < |names|
      ensures Slot(columns[..k + 1], values[..k + 1], names, j) ==
        if j == FirstIndex(names, columns[k]) then values[k] else Slot(before, values[..k], names, j)
    {
      FirstIndexAppend(before, columns[k], names[j]);
    }
  }

  // ----- Laws ----------------------------------------------------------------

  function Pairs(columns: seq<string>, values: seq<string>): (ps: seq<(string, string)>)
    requires |columns| == |values|
    ensures |ps| == |columns| && forall i :: 0 <= i < |ps| ==> ps[i] == (columns[i], values[i])
  {
    seq(|columns|, i requires 0 <= i < |columns| => (columns[i], values[i]))
  }

  lemma SlotHoldsPair(columns: seq<string>, values: seq<string>, schemaColumns: seq<string>, j: nat)
    requires |columns| == |values| && j < |schemaColumns| && FirstIndex(schemaColumns, schemaColumns[j]) == j
    requires schemaColumns[j] in columns
    ensures (schemaColumns[j], Slot(columns, values, schemaColumns, j)) in Pairs(columns, values)
  {
  }

  function Names(ps: seq<(string, string)>): seq<string> {
    if ps == [] then [] else [ps[0].0] + Names(ps[1..])
  }

  lemma {:induction false} NamesOfPairs(columns: seq<string>, values: seq<string>)
    requires |columns| == |values|
    ensures Names(Pairs(columns, values)) == columns
  {
    if columns != [] {
      assert Pairs(columns, values)[1..] == Pairs(columns[1..], values[1..]);
      NamesOfPairs(columns[1..], values[1..]);
    }
  }

  lemma NamesStep(ps: seq<(string, string)>)
    requires ps != []
    ensures multiset(Names(ps)) == multiset{ps[0].0} + multiset(Names(ps[1..]))
  {
  }

  lemma {:induction false} NamesWithout(ps: seq<(string, string)>, k: nat)
    requires k < |ps|
    ensures multiset(Names(ps)) == multiset(Names(ps[..k] + ps[k + 1..])) + multiset{ps[k].0}
  {
    hide Names;
    var rest, less := ps[1..], ps[..k] + ps[k + 1..];
    NamesStep(ps);
    if k == 0 {
      assert less == rest;
    } else {
      NamesWithout(rest, k - 1);
      assert less[1..] == rest[..k - 1] + rest[k..];
      NamesStep(less);
    }
  }

  lemma PairsWithout(ps: seq<(string, string)>, k: nat)
    requires k < |ps|
    ensures multiset(ps) == multiset(ps[..k] + ps[k + 1..]) + multiset{ps[k]}
  {
    assert ps == ps[..k] + [ps[k]] + ps[k + 1..];
  }

  lemma Cancel<T>(a: multiset<T>, b: multiset<T>, x: T)
    requires a + multiset{x} == b + multiset{x}
    ensures a == b
  {
    forall y ensures a[y] == b[y] {
      assert (a + multiset{x})[y] == (b + multiset{x})[y];
    }
  }

  /** The same pairs in another order name the same columns, as often. */
  lemma {:induction false} NamesPermute(ps: seq<(string, string)>, ps': seq<(string, string)>)
    requires multiset(ps) == multiset(ps')
    ensures multiset(Names(ps)) == multiset(Names(ps'))
    decreases |ps|
  {
    hide Names;
    if ps == [] {
      assert |multiset(ps')| == 0;
    } else {
      assert ps[0] in multiset(ps');
      var k :| 0 <= k < |ps'| && ps'[k] == ps[0];
      var rest' := ps'[..k] + ps'[k + 1..];
      PairsWithout(ps, 0);
      PairsWithout(ps', k);
      assert ps[..0] + ps[1..] == ps[1..];
      Cancel(multiset(ps[1..]), multiset(rest'), ps[0]);
      NamesWithout(ps', k);
      NamesStep(ps);
      NamesPermute(ps[1..], rest');
    }
  }

  lemma {:induction false} DistinctCounts(columns: seq<string>)
    ensures Distinct(columns) <==> forall name :: multiset(columns)[name] <= 1
    decreases |columns|
  {
    if columns != [] {
      var rest := columns[1..];
      assert columns == [columns[0]] + rest;
      DistinctCounts(rest);
      if columns[0] in rest {
        var j :| 0 <= j < |rest| && rest[j] == columns[0];
        assert columns[0] == columns[j + 1];
        assert multiset(columns)[columns[0]] == 1 + multiset(rest)[columns[0]];
      } else {
        DistinctRest(columns);
        assert forall name :: multiset(columns)[name] == multiset(rest)[name] + if name == columns[0] then 1 else 0;
      }
    }
  }

  lemma DistinctRest(columns: seq<string>)
    requires columns != [] && columns[0] !in columns[1..]
    ensures Distinct(columns) <==> Distinct(columns[1..])
  {
    var rest := columns[1..];
    assert forall i :: 0 < i < |columns| ==> columns[i] == rest[i - 1];
    assert forall i :: 0 <= i < |rest| ==> rest[i] == columns[i + 1];
  }

  /**
    The order in which an INSERT names its columns does not matter: with the same
    pairs in another order it is refused as well, or stores the same row.
  */
  lemma OrderDoesNotMatter(columns: seq<string>, values: seq<string>, columns': seq<string>, values': seq<string>,
                           schemaColumns: seq<string>)
    requires |columns| == |values| && |columns'| == |values'|
    requires multiset(Pairs(columns, values)) == multiset(Pairs(columns', values'))
    ensures var r, r' := BuildRow(columns, values, schemaColumns), BuildRow(columns', values', schemaColumns);
      (r.0.None? <==> r'.0.None?) && (r.0.None? ==> r.1 == r'.1)
  {
    NamesPermute(Pairs(columns, values), Pairs(columns', values'));
    NamesOfPairs(columns, values);
    NamesOfPairs(columns', values');
    DistinctCounts(columns);
    DistinctCounts(columns');
    if Distinct(columns) {
      SameScatter(columns, values, columns', values', schemaColumns);
    }
  }

  /** A statement and any permutation of it are both acceptable or both refused. */
  lemma ValidationIgnoresOrder(columns: seq<string>, values: seq<string>, columns': seq<string>, values': seq<string>,
                               schemaColumns: seq<string>)
    requires |columns| == |values| && |columns'| == |values'|
    requires multiset(Pairs(columns, values)) == multiset(Pairs(columns', values'))
    ensures ValidationError(columns, values, schemaColumns).None? <==>
      ValidationError(columns', values', schemaColumns).None?
  {
    var ps, ps' := Pairs(columns, values), Pairs(columns', values');
    ValidPairs(columns, values, schemaColumns);
    ValidPairs(columns', values', schemaColumns);
    hide Pairs, ValidationError, PairError;
    assert forall p :: p in ps <==> p in multiset(ps);
    assert forall p :: p in ps' <==> p in multiset(ps');
  }

  lemma ValidPairs(columns: seq<string>, values: seq<string>, schemaColumns: seq<string>)
    requires |columns| == |values|
    ensures ValidationError(columns, values, schemaColumns).None? <==>
      forall p :: p in Pairs(columns, values) ==> PairError(p.0, p.1, schemaColumns).None?
  {
    hide PairError;
    var ps := Pairs(columns, values);
    assert forall i :: 0 <= i < |columns| ==> ps[i] in ps && ps[i] == (columns[i], values[i]);
  }

  lemma SameScatter(columns: seq<string>, values: seq<string>, columns': seq<string>, values': seq<string>,
                    schemaColumns: seq<string>)
    requires |columns| == |values| && |columns'| == |values'| && Distinct(columns) && Distinct(columns')
    requires multiset(Pairs(columns, values)) == multiset(Pairs(columns', values'))
    ensures Scatter(columns, values, schemaColumns) == Scatter(columns', values', schemaColumns)
  {
    var ps, ps' := Pairs(columns, values), Pairs(columns', values');
    assert forall p :: p in ps <==> p in multiset(ps);
    assert forall p :: p in ps' <==> p in multiset(ps');
    forall j | 0 <= j < |schemaColumns|
      ensures Slot(columns, values, schemaColumns, j) == Slot(columns', values', schemaColumns, j)
    {
      SameSlot(columns, values, columns', values', schemaColumns, j);
    }
  }

  lemma SameSlot(columns: seq<string>, values: seq<string>, columns': seq<string>, values': seq<string>,
                 schemaColumns: seq<string>, j: nat)
    requires |columns| == |values| && |columns'| == |values'| && Distinct(columns) && Distinct(columns')
    requires forall p :: p in Pairs(columns, values) <==> p in Pairs(columns', values')
    requires j < |schemaColumns|
    ensures Slot(columns, values, schemaColumns, j) == Slot(columns', values', schemaColumns, j)
  {
    var name := schemaColumns[j];
    NameMoves(columns, values, columns', values', name);
    NameMoves(columns', values', columns, values, name);
    if name in columns && FirstIndex(schemaColumns, name) == j {
      SlotHoldsPair(columns, values, schemaColumns, j);
      SlotHoldsPair(columns', values', schemaColumns, j);
      OneValuePerName(columns, values, name,
                      Slot(columns, values, schemaColumns, j), Slot(columns', values', schemaColumns, j));
    }
  }

  lemma NameMoves(columns: seq<string>, values: seq<string>, columns': seq<string>, values': seq<string>, name: string)
    requires |columns| == |values| && |columns'| == |values'|
    requires forall p :: p in Pairs(columns, values) ==> p in Pairs(columns', values')
    ensures name in columns ==> name in columns'
  {
    if name in columns {
      var i := FirstIndex(columns, name);
      assert Pairs(columns, values)[i] in Pairs(columns', values');
      var k :| 0 <= k < |columns'| && Pairs(columns', values')[k] == (name, values[i]);
      assert columns'[k] == name;
    }
  }

  lemma OneValuePerName(columns: seq<string>, values: seq<string>, name: string, v: string, v': string)
    requires |columns| == |values| && Distinct(columns)
    requires (name, v) in Pairs(columns, values) && (name, v') in Pairs(columns, values)
    ensures v == v'
  {
  }
}
