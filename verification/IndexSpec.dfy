/**
  What the table index of src/index/table_index.c computes: the tree of all row
  offsets of a CSV file, the entry kept for a table, and the state changes of that
  entry. The classes of `TableIndexes` are proved against these functions.
*/
module IndexSpec {
  import opened Wrappers
  import opened BTreeModel
  import opened BTreeLaws
  import opened BTreeHeights
  import opened CsvFile

  // ----- The tree of a list of rows ------------------------------------------

  function OffsetOf(rows: seq<Row>, id: int): int
    requires 1 <= id <= |rows|
  {
    rows[id - 1].offset
  }

  function OffsetMap(rows: seq<Row>): map<int, int> {
    map id | 1 <= id <= |rows| :: OffsetOf(rows, id)
  }

  lemma OffsetMapStep(rows: seq<Row>)
    requires rows != []
    ensures OffsetMap(rows) == OffsetMap(rows[..|rows| - 1])[|rows| := rows[|rows| - 1].offset]
  {
  }

  /** Ids are ordinals: row number i of the file has id i, starting from 1. */
  ghost function TreeOf(rows: seq<Row>): (root: Option<Tree>)
    ensures IsBPlusTree(root) && Contents(root) == OffsetMap(rows)
  {
    if rows == [] then None
    else
      var n := |rows|;
      var before := TreeOf(rows[..n - 1]);
      InsertRefinesMap(before, n, rows[n - 1].offset);
      OffsetMapStep(rows);
      Some(InsertRoot(before, n, rows[n - 1].offset).root)
  }

  lemma TreeOfContents(rows: seq<Row>)
    ensures IsBPlusTree(TreeOf(rows)) && Contents(TreeOf(rows)) == OffsetMap(rows)
  {
  }

  function Nodes(root: Option<Tree>): nat {
    if root.None? then 0 else NodeCount(root.value)
  }

  datatype Build = OutOfMemory | Built(root: Option<Tree>, nextId: int, left: nat)

  /** `rebuild_row` on each row in turn; an insertion fails when the budget of node allocations is used up. */
  ghost function Grow(root: Option<Tree>, nextId: int, rows: seq<Row>, budget: nat): Build
    requires IsBPlusTree(root)
    requires forall id :: id >= nextId ==> id !in Contents(root)
    decreases |rows|
  {
    if rows == [] then Built(root, nextId, budget)
    else
      InsertRefinesMap(root, nextId, rows[0].offset);
      var r := InsertRoot(root, nextId, rows[0].offset);
      if budget < r.cost then OutOfMemory
      else Grow(Some(r.root), nextId + 1, rows[1..], budget - r.cost)
  }

  lemma TreeOfStep(rows: seq<Row>, n: nat)
    requires n < |rows|
    ensures var r := InsertRoot(TreeOf(rows[..n]), n + 1, rows[n].offset);
      && r.Inserted? && Some(r.root) == TreeOf(rows[..n + 1])
      && Nodes(TreeOf(rows[..n + 1])) == Nodes(TreeOf(rows[..n])) + r.cost
  {
    var before := TreeOf(rows[..n]);
    InsertRefinesMap(before, n + 1, rows[n].offset);
    assert rows[..n + 1][..n] == rows[..n];
    InsertCountsNodes(before, n + 1, rows[n].offset);
  }

  /** Rebuilding succeeds exactly when every node of the final tree can be allocated, and then yields that tree. */
  lemma {:induction false} GrowGivesTreeOf(rows: seq<Row>, n: nat, budget: nat)
    requires n <= |rows|
    ensures Nodes(TreeOf(rows[..n])) <= Nodes(TreeOf(rows))
    ensures Grow(TreeOf(rows[..n]), n + 1, rows[n..], budget) ==
      var missing := Nodes(TreeOf(rows)) - Nodes(TreeOf(rows[..n]));
      if budget < missing then OutOfMemory else Built(TreeOf(rows), |rows| + 1, budget - missing)
    decreases |rows| - n
  {
    hide TreeOf, InsertRoot, Nodes, Contents;
    if n == |rows| {
      assert rows[..n] == rows && rows[n..] == [];
    } else {
      TreeOfStep(rows, n);
      var cost := InsertRoot(TreeOf(rows[..n]), n + 1, rows[n].offset).cost;
      assert rows[n..][1..] == rows[n + 1..];
      GrowGivesTreeOf(rows, n + 1, if budget < cost then 0 else budget - cost);
    }
  }

  ghost predicate PackedBelow(root: Option<Tree>, h: nat, key: int) {
    root.Some? && PackedOffSpine(root.value, h) && AllSmaller(root.value, key)
  }

  /** The index only ever inserts ascending ids, so its trees are packed off the right spine. */
  lemma {:induction false} TreeOfIsPacked(rows: seq<Row>, n: nat) returns (h: nat)
    requires 2 <= n <= |rows|
    ensures PackedBelow(TreeOf(rows[..n]), h, n + 1)
    decreases n
  {
    if n == 2 {
      FirstTwo(rows[..2]);
      h := 0;
    } else {
      var lower := TreeOfIsPacked(rows, n - 1);
      TreeOfStep(rows, n - 1);
      h := PackedStep(TreeOf(rows[..n - 1]), lower, n, rows[n - 1].offset);
    }
  }

  lemma PackedStep(before: Option<Tree>, h: nat, key: int, value: int) returns (h': nat)
    requires IsBPlusTree(before) && PackedBelow(before, h, key) && InsertRoot(before, key, value).Inserted?
    ensures PackedBelow(Some(InsertRoot(before, key, value).root), h', key + 1)
  {
    AscendingPut(before.value, h, key, value);
    PutKeepsSmaller(before.value, key, value);
    var o := Put(before.value, key, value);
    h' := if o.Split? then h + 1 else h;
  }

  lemma FirstTwo(rows: seq<Row>)
    requires |rows| == 2
    ensures TreeOf(rows) == Some(Leaf([1, 2], [rows[0].offset, rows[1].offset]))
    ensures PackedOffSpine(TreeOf(rows).value, 0) && AllSmaller(TreeOf(rows).value, 3)
  {
    assert rows[..1][..0] == [];
    assert TreeOf(rows[..1]) == Some(Leaf([1], [rows[0].offset]));
    assert LowerBound([1], 2) == 1;
    assert InsertAt([1], 1, 2) == [1, 2];
    assert InsertAt([rows[0].offset], 1, rows[1].offset) == [rows[0].offset, rows[1].offset];
  }

  ghost predicate OutcomeSmaller(o: Outcome, key: int) {
    match o
    case Duplicate => true
    case Stored(t) => AllSmaller(t, key)
    case Split(left, sep, right) => AllSmaller(left, key) && sep < key && AllSmaller(right, key)
  }

  lemma {:induction false} SmallerGrows(t: Tree, a: int, b: int)
    requires AllSmaller(t, a) && a <= b
    ensures AllSmaller(t, b)
    decreases t
  {
    if t.Branch? {
      forall i | 0 <= i < |t.kids| ensures AllSmaller(t.kids[i], b) {
        SmallerGrows(t.kids[i], a, b);
      }
    }
  }

  lemma BranchOutcomeSmaller(keys: seq<int>, kids: seq<Tree>, key: int)
    requires |kids| == |keys| + 1
    requires forall i :: 0 <= i < |keys| ==> keys[i] < key
    requires forall i :: 0 <= i < |kids| ==> AllSmaller(kids[i], key)
    ensures OutcomeSmaller(BranchOutcome(keys, kids), key)
  {
  }

  lemma LeafOutcomeSmaller(keys: seq<int>, vals: seq<int>, key: int)
    requires |keys| == |vals|
    requires forall i :: 0 <= i < |keys| ==> keys[i] < key
    ensures OutcomeSmaller(LeafOutcome(keys, vals), key)
  {
  }

  lemma {:induction false} PutKeepsSmaller(t: Tree, key: int, value: int)
    requires Shaped(t) && AllSmaller(t, key)
    ensures OutcomeSmaller(Put(t, key, value), key + 1)
    decreases t
  {
    hide LeafOutcome, BranchOutcome, InsertAt;
    SmallerGrows(t, key, key + 1);
    ChildOfLargest(t.keys, key);
    if t.Leaf? {
      InsertAtEnd(t.keys, key);
      InsertAtEnd(t.vals, value);
      LeafOutcomeSmaller(t.keys + [key], t.vals + [value], key + 1);
    } else {
      var c := |t.keys|;
      PutKeepsSmaller(t.kids[c], key, value);
      match Put(t.kids[c], key, value) {
        case Duplicate =>
        case Stored(kid) =>
        case Split(left, sep, right) =>
          InsertAtEnd(t.keys, sep);
          InsertAtEnd(t.kids[c := left], right);
          BranchOutcomeSmaller(t.keys + [sep], t.kids[c := left] + [right], key + 1);
      }
    }
  }

  /**
    The height of the index over n >= 2 rows is the h with 3^h < n <= 3^(h+1), and
    every lookup visits exactly h + 1 nodes: the ceiling of log3(n).
  */
  lemma IndexLookupCost(rows: seq<Row>, key: int) returns (h: nat)
    requires |rows| >= 2
    ensures TreeOf(rows).Some? && PackedOffSpine(TreeOf(rows).value, h)
    ensures Pow(3, h) < |rows| <= Pow(3, h + 1)
    ensures Visits(TreeOf(rows).value, key) == h + 1
  {
    h := TreeOfIsPacked(rows, |rows|);
    assert rows[..|rows|] == rows;
    var t := TreeOf(rows).value;
    ExactHeight(t, h);
    PackedOffSpineIsBalanced(t, h);
    VisitsOnePerLevel(t, h, key);
    TreeOfSize(rows);
  }

  lemma {:induction false} TreeOfSize(rows: seq<Row>)
    ensures TreeOf(rows).Some? ==> Size(TreeOf(rows).value) == |rows|
  {
    if rows != [] {
      var n := |rows|;
      var before := TreeOf(rows[..n - 1]);
      TreeOfSize(rows[..n - 1]);
      InsertRefinesMap(before, n, rows[n - 1].offset);
      InsertGrowsSize(before, n, rows[n - 1].offset);
    }
  }

  lemma InsertGrowsSize(root: Option<Tree>, key: int, value: int)
    requires IsBPlusTree(root) && InsertRoot(root, key, value).Inserted?
    ensures Shaped(InsertRoot(root, key, value).root)
    ensures Size(InsertRoot(root, key, value).root) == 1 + if root.Some? then Size(root.value) else 0
  {
    if root.Some? {
      var t := root.value;
      var h: nat :| BalancedRoot(t, h);
      PutKeeps(t, h, key, value);
      SortedInsertKeepsSorted(Entries(t), key, value);
      RootFromOutcome(Put(t, key, value), h, SortedInsert(Entries(t), key, value));
    }
  }

  // ----- The entry of a table ------------------------------------------------

  datatype IndexError = CannotOpen | BadFile(message: string) | NoMemory | DuplicateId | Forced

  /** `Spoiled`: an allocation failed in the middle of a split. */
  datatype TreeState = Spoiled | Intact(root: Option<Tree>)

  datatype TableEntry = TableEntry(loaded: bool, tree: TreeState, nextId: int)

  const UNLOADED := TableEntry(false, Intact(None), 1)

  /** The entry of a file with these data rows. */
  ghost function Loaded(rows: seq<Row>): TableEntry {
    TableEntry(true, Intact(TreeOf(rows)), |rows| + 1)
  }

  /** The outcome of an operation on an entry, with the budget of allocations it leaves. */
  datatype Load = Load(entry: TableEntry, error: Option<IndexError>, left: nat)

  /** What holds of every entry at every step: the tree of a loaded one is whole and has no id from `nextId` on. */
  ghost predicate Sound(e: TableEntry) {
    if e.loaded then
      && e.tree.Intact? && IsBPlusTree(e.tree.root)
      && forall id :: id >= e.nextId ==> id !in Contents(e.tree.root)
    else e == UNLOADED
  }

  /** What the cache is for: a loaded entry is the one a scan of the file would give. */
  ghost predicate Agrees(e: TableEntry, file: Option<string>) {
    if e.loaded then file.Some? && ScanFile(file.value).error.None? && e == Loaded(ScanFile(file.value).rows)
    else e == UNLOADED
  }

  lemma LoadedIsSound(rows: seq<Row>)
    ensures Sound(Loaded(rows))
  {
  }

  /** `ensure_loaded` on an entry that is not loaded. */
  ghost function Rebuild(file: Option<string>, budget: nat): Load {
    if file.None? then Load(UNLOADED, Some(CannotOpen), budget)
    else
      var scan := ScanFile(file.value);
      match Grow(None, 1, scan.rows, budget)
      case OutOfMemory => Load(UNLOADED, Some(NoMemory), 0)
      case Built(root, nextId, left) =>
        if scan.error.Some? then Load(UNLOADED, Some(BadFile(scan.error.value)), left)
        else Load(TableEntry(true, Intact(root), nextId), None, left)
  }

  /** `ensure_loaded`. */
  ghost function EnsureLoaded(e: TableEntry, file: Option<string>, budget: nat): Load {
    if e.loaded then Load(e, None, budget) else Rebuild(file, budget)
  }

  /** The entry of a table in a registry, one that is not there yet being unloaded. */
  ghost function EntryIn(entries: map<string, TableEntry>, name: string): TableEntry {
    if name in entries then entries[name] else UNLOADED
  }

  /**
    Where in a statement memory for anything but tree nodes and escaped fields runs
    out, if it does: before the index is used, for a new registry entry, while lines
    of the file are read for it, or behind it but before anything is written or shown.
  */
  datatype Halt = Never | AtStart | AtEntry | InScan | AfterLoad

  /** Loading gets to the allocation that fails. */
  ghost predicate HaltsLoad(entries: map<string, TableEntry>, name: string, file: Option<string>, halt: Halt) {
    || (halt.AtEntry? && name !in entries)
    || (halt.InScan? && !EntryIn(entries, name).loaded && file.Some?)
  }

  /** `ensure_loaded` in a registry: what becomes of the entries. A scan that halts leaves its entry unloaded. */
  ghost function LoadIn(entries: map<string, TableEntry>, name: string, file: Option<string>, budget: nat, halt: Halt)
    : (r: (map<string, TableEntry>, Load))
  {
    if HaltsLoad(entries, name, file, halt) then
      (if halt.AtEntry? then entries else entries[name := UNLOADED], Load(UNLOADED, Some(NoMemory), 0))
    else
      var load := EnsureLoaded(EntryIn(entries, name), file, budget);
      (entries[name := load.entry], load)
  }

  /** Only the entry of this table is touched, and if the loading fails it is unloaded. */
  lemma LoadInTouchesOne(entries: map<string, TableEntry>, name: string, file: Option<string>, budget: nat, halt: Halt)
    requires Sound(EntryIn(entries, name))
    ensures var (entries', load) := LoadIn(entries, name, file, budget, halt);
      && Sound(load.entry) && EntryIn(entries', name) == load.entry
      && (load.error.None? <==> load.entry.loaded) && (load.error.None? ==> name in entries')
      && (entries' == entries || entries' == entries[name := load.entry])
      && (Agrees(EntryIn(entries, name), file) ==> Agrees(load.entry, file))
  {
    hide EnsureLoaded, Agrees;
    EnsureLoadedKeepsSound(EntryIn(entries, name), file, budget);
    UnloadedIsFine(file);
    if Agrees(EntryIn(entries, name), file) {
      EnsureLoadedKeepsAgreement(EntryIn(entries, name), file, budget);
    }
  }

  lemma LoadInSteps(entries: map<string, TableEntry>, name: string, file: Option<string>, budget: nat, halt: Halt)
    ensures var here, e := LoadIn(entries, name, file, budget, halt), EntryIn(entries, name);
      var load := EnsureLoaded(e, file, budget);
      if halt.AtEntry? && name !in entries then here == (entries, Load(UNLOADED, Some(NoMemory), 0))
      else if halt.InScan? && file.Some? && !e.loaded then
        here == (entries[name := UNLOADED], Load(UNLOADED, Some(NoMemory), 0))
      else here == (entries[name := load.entry], load)
  {
    hide EnsureLoaded;
  }

  lemma UnloadedIsFine(file: Option<string>)
    ensures Sound(UNLOADED) && Agrees(UNLOADED, file)
  {
  }

  /** The tail of `table_index_register_row`, for a loaded entry. */
  ghost function RegisterIn(e: TableEntry, id: int, offset: nat, budget: nat): Load
    requires Sound(e) && e.loaded
  {
    match InsertRoot(e.tree.root, id, offset)
    case Rejected => Load(e, Some(DuplicateId), budget)
    case Inserted(t, cost) =>
      if budget < cost then
        Load(e.(tree := if e.tree.root.None? then Intact(None) else Spoiled), Some(NoMemory), 0)
      else
        Load(e.(tree := Intact(Some(t)), nextId := if id >= e.nextId then id + 1 else e.nextId), None, budget - cost)
  }

  /** `table_index_register_row` without the forced failure. */
  ghost function RegisterRowIn(e: TableEntry, file: Option<string>, id: int, offset: nat, budget: nat): Load
    requires Sound(e)
  {
    EnsureLoadedKeepsSound(e, file, budget);
    var load := EnsureLoaded(e, file, budget);
    if load.error.Some? then load else RegisterIn(load.entry, id, offset, load.left)
  }

  lemma RegisterRowInSteps(e: TableEntry, file: Option<string>, id: int, offset: nat, budget: nat)
    requires Sound(e)
    ensures var load := EnsureLoaded(e, file, budget);
      if load.error.Some? then RegisterRowIn(e, file, id, offset, budget) == load
      else
        && Sound(load.entry) && load.entry.loaded
        && RegisterRowIn(e, file, id, offset, budget) == RegisterIn(load.entry, id, offset, load.left)
  {
    EnsureLoadedKeepsSound(e, file, budget);
  }

  /** Rebuilding gives the entry of the scanned rows; it fails only without a file, memory, or lines that parse. */
  lemma RebuildGivesLoaded(file: Option<string>, budget: nat)
    ensures Rebuild(file, budget) ==
      if file.None? then Load(UNLOADED, Some(CannotOpen), budget)
      else
        var scan := ScanFile(file.value);
        var cost := Nodes(TreeOf(scan.rows));
        if budget < cost then Load(UNLOADED, Some(NoMemory), 0)
        else if scan.error.Some? then Load(UNLOADED, Some(BadFile(scan.error.value)), budget - cost)
        else Load(Loaded(scan.rows), None, budget - cost)
  {
    if file.Some? {
      var rows := ScanFile(file.value).rows;
      GrowGivesTreeOf(rows, 0, budget);
      assert rows[..0] == [] && rows[0..] == rows;
    }
  }

  lemma EnsureLoadedKeepsSound(e: TableEntry, file: Option<string>, budget: nat)
    requires Sound(e)
    ensures var l := EnsureLoaded(e, file, budget); Sound(l.entry) && (l.error.None? <==> l.entry.loaded)
  {
    RebuildGivesLoaded(file, budget);
    if file.Some? {
      LoadedIsSound(ScanFile(file.value).rows);
    }
  }

  lemma EnsureLoadedKeepsAgreement(e: TableEntry, file: Option<string>, budget: nat)
    requires Agrees(e, file)
    ensures Agrees(EnsureLoaded(e, file, budget).entry, file)
  {
    RebuildGivesLoaded(file, budget);
  }

  lemma RegisterKeepsSound(e: TableEntry, id: int, offset: nat, budget: nat)
    requires Sound(e) && e.loaded
    ensures var l := RegisterIn(e, id, offset, budget); l.error.None? ==> Sound(l.entry) && l.entry.loaded
  {
    InsertRefinesMap(e.tree.root, id, offset);
  }

  /** A registration that succeeds adds the next id, and only that, to the map. */
  lemma RegisterAdds(e: TableEntry, offset: nat, budget: nat)
    requires Sound(e) && e.loaded
    ensures var l := RegisterIn(e, e.nextId, offset, budget);
      l.error.None? ==>
        && l.entry.loaded && l.entry.nextId == e.nextId + 1 && Sound(l.entry)
        && Contents(l.entry.tree.root) == Contents(e.tree.root)[e.nextId := offset]
  {
    InsertRefinesMap(e.tree.root, e.nextId, offset);
  }

  /**
    Incremental maintenance equals rebuilding: registering the next row in the
    entry of some rows gives exactly the entry of those rows and the new one, the
    same tree node for node, for exactly the allocations by which that tree is larger.
  */
  lemma RegisterNextRow(rows: seq<Row>, row: Row, budget: nat)
    ensures Sound(Loaded(rows))
    ensures var l := RegisterIn(Loaded(rows), |rows| + 1, row.offset, budget);
      var cost := Nodes(TreeOf(rows + [row])) - Nodes(TreeOf(rows));
      && cost >= 0
      && if budget < cost then l.error == Some(NoMemory) && l.left == 0
         else l == Load(Loaded(rows + [row]), None, budget - cost)
  {
    hide TreeOf, InsertRoot, Nodes, IsBPlusTree, Contents, Sound;
    LoadedIsSound(rows);
    var all := rows + [row];
    TreeOfStep(all, |rows|);
    assert all[..|rows|] == rows && all[..|all|] == all;
  }
}
