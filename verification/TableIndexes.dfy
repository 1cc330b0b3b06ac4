/** The per-table indexes and their registry, updated in place (src/index/table_index.c). */
module TableIndexes {
  import opened Wrappers
  import opened CsvCodec
  import opened CsvFile
  import opened BTreeModel
  import opened BTreeLaws
  import opened IndexSpec
  import Trees = BPlusTree

  /** The index of one table. */
  class TableIndex {
    const tableName: string
    const tree: Trees.BPlusTree
    var loaded: bool
    var nextId: int

    constructor (name: string)
      ensures Valid() && tableName == name && State() == UNLOADED && fresh(Foot())
    {
      tableName, loaded, nextId := name, false, 1;
      tree := new Trees.BPlusTree();
    }

    ghost predicate Valid()
      reads this, tree, tree.repr
    {
      tree.Valid() && this !in tree.repr
    }

    ghost function Foot(): set<object>
      reads tree
    {
      {this} + tree.repr
    }

    /** The entry this object stands for. */
    ghost function State(): TableEntry
      reads this, tree
    {
      TableEntry(loaded, if tree.sound then Intact(tree.model) else Spoiled, nextId)
    }

    /** Back to "not loaded", whatever state the tree was left in. */
    method Clear()
      requires Valid()
      modifies Foot()
      ensures Valid() && State() == UNLOADED && Foot() <= old(Foot())
    {
      tree.Reset();
      loaded, nextId := false, 1;
    }

    /** `rebuild_row` for the row at `offset`. */
    method RebuildRow(id: int, offset: nat, budget: nat) returns (ok: bool, left: nat)
      requires Valid() && tree.sound && IsBPlusTree(tree.model)
      requires forall k :: k >= id ==> k !in Contents(tree.model)
      modifies tree.repr
      ensures Valid() && fresh(Foot() - old(Foot())) && loaded == old(loaded)
      ensures var r := InsertRoot(old(tree.model), id, offset);
        && r.Inserted? && ok == (budget >= r.cost)
        && (ok ==>
              && left == budget - r.cost && tree.sound && tree.model == Some(r.root) && IsBPlusTree(tree.model)
              && forall k :: k >= id + 1 ==> k !in Contents(tree.model))
    {
      InsertRefinesMap(tree.model, id, offset);
      var message;
      ok, message, left := tree.Insert(id, offset, budget);
    }

    /** Where a rebuild stands: the same result as growing what has been read by what has not. */
    ghost predicate Rebuilding(bytes: string, pos: nat, id: int, budget: nat, left: nat)
      requires pos <= |bytes|
      reads this, tree, tree.repr
    {
      && Valid() && tree.sound && IsBPlusTree(tree.model)
      && (forall k :: k >= id ==> k !in Contents(tree.model))
      && Grow(None, 1, ScanFile(bytes).rows, budget) == Grow(tree.model, id, ScanFrom(bytes, pos).rows, left)
      && ScanFile(bytes).error == ScanFrom(bytes, pos).error
    }

    /** One line of `scan_rows_csv` with `rebuild_row` as its visitor. */
    method RebuildLine(bytes: string, pos: nat, id: int, ghost budget: nat, left: nat)
      returns (error: Option<IndexError>, next: nat, id': int, left': nat)
      requires pos < |bytes| && Rebuilding(bytes, pos, id, budget, left)
      modifies tree.repr
      ensures Valid() && fresh(Foot() - old(Foot())) && loaded == old(loaded)
      ensures pos < next <= |bytes|
      ensures error.None? ==> Rebuilding(bytes, next, id', budget, left')
      ensures error.Some? ==> Rebuild(Some(bytes), budget) == Load(UNLOADED, error, left')
    {
      error, id', left' := None, id, left;
      var text;
      text, next := ReadLine(bytes, pos);
      if text == "" {
        return;
      }
      var parsed := CsvParseLine(text);
      if parsed.Err? {
        error := Some(BadFile(parsed.message));
        return;
      }
      var ok;
      ok, left' := RebuildRow(id, pos, left);
      if !ok {
        return Some(NoMemory), next, id, 0;
      }
      id' := id + 1;
    }

    lemma StartsRebuilding(bytes: string, budget: nat)
      requires Valid() && tree.sound && tree.model == None && bytes != ""
      ensures Rebuilding(bytes, LineEndAt(bytes, 0), 1, budget, budget)
    {
      hide Grow, LineEndAt, ScanFrom;
      assert ScanFile(bytes) == ScanFrom(bytes, LineEndAt(bytes, 0));
    }

    lemma EndsRebuilding(bytes: string, id: int, budget: nat, left: nat)
      requires Rebuilding(bytes, |bytes|, id, budget, left)
      ensures Rebuild(Some(bytes), budget) == Load(TableEntry(true, Intact(tree.model), id), None, left)
      ensures Valid() && tree.sound
    {
      hide ScanFile;
    }

    lemma NothingToRebuild(budget: nat)
      ensures Rebuild(None, budget) == Load(UNLOADED, Some(CannotOpen), budget)
      ensures Rebuild(Some(""), budget) == Load(UNLOADED, Some(BadFile(EMPTY_TABLE)), budget)
    {
    }

    /** The loop of `scan_rows_csv` behind the header, up to the end or the first failure. */
    method RebuildRows(bytes: string, budget: nat) returns (error: Option<IndexError>, id: int, left: nat)
      requires Valid() && tree.sound && tree.model == None && bytes != ""
      modifies tree.repr
      ensures Valid() && fresh(Foot() - old(Foot())) && loaded == old(loaded)
      ensures error.None? ==> Rebuilding(bytes, |bytes|, id, budget, left)
      ensures error.Some? ==> Rebuild(Some(bytes), budget) == Load(UNLOADED, error, left)
    {
      hide TableIndex.Rebuilding, Rebuild;
      error, id, left := None, 1, budget;
      var pos := LineEndAt(bytes, 0);
      StartsRebuilding(bytes, budget);
      while pos < |bytes| && error.None?
        invariant pos <= |bytes| && Valid() && fresh(Foot() - old(Foot())) && loaded == old(loaded)
        invariant error.None? ==> Rebuilding(bytes, pos, id, budget, left)
        invariant error.Some? ==> Rebuild(Some(bytes), budget) == Load(UNLOADED, error, left)
        decreases |bytes| - pos
      {
        error, pos, id, left := RebuildLine(bytes, pos, id, budget, left);
      }
    }

    /** `ensure_loaded` on an entry that is not loaded: scan the file and insert every row; on failure, unload. */
    method RebuildIndex(file: Option<string>, budget: nat) returns (error: Option<IndexError>, left: nat)
      requires Valid() && !loaded
      modifies Foot()
      ensures Valid() && fresh(Foot() - old(Foot()))
      ensures Load(State(), error, left) == Rebuild(file, budget)
    {
      hide Rebuild, TableIndex.Rebuilding;
      Clear();
      NothingToRebuild(budget);
      if file.None? {
        return Some(CannotOpen), budget;
      }
      if file.value == "" {
        return Some(BadFile(EMPTY_TABLE)), budget;
      }
      var id;
      error, id, left := RebuildRows(file.value, budget);
      if error.Some? {
        Clear();
      } else {
        EndsRebuilding(file.value, id, budget, left);
        loaded, nextId := true, id;
      }
    }

    /** `ensure_loaded`. */
    method EnsureLoaded(file: Option<string>, budget: nat) returns (error: Option<IndexError>, left: nat)
      requires Valid()
      modifies Foot()
      ensures Valid() && fresh(Foot() - old(Foot()))
      ensures Load(State(), error, left) == IndexSpec.EnsureLoaded(old(State()), file, budget)
    {
      if loaded {
        error, left := None, budget;
      } else {
        error, left := RebuildIndex(file, budget);
      }
    }

    /** `bptree_search` in a loaded entry. */
    method Find(id: int) returns (offset: Option<int>)
      requires Valid() && Sound(State()) && State().loaded
      ensures offset == Get(Contents(State().tree.root), id)
    {
      var found, value;
      ghost var visited;
      found, value, visited := tree.Search(id);
      offset := if found then Some(value) else None;
    }

    /** The tail of `table_index_register_row`: on failure the entry stays loaded, possibly with a spoiled tree. */
    method Register(id: int, offset: nat, budget: nat) returns (error: Option<IndexError>, left: nat)
      requires Valid() && Sound(State()) && State().loaded
      modifies Foot()
      ensures Valid() && fresh(Foot() - old(Foot()))
      ensures Load(State(), error, left) == RegisterIn(old(State()), id, offset, budget)
    {
      var ok, message;
      ok, message, left := tree.Insert(id, offset, budget);
      if !ok {
        return Some(if message == Trees.DUPLICATE then DuplicateId else NoMemory), left;
      }
      if id >= nextId {
        nextId := id + 1;
      }
      error := None;
    }
  }

  /** Some entries and the objects they may own. */
  datatype Shelf = Shelf(items: seq<TableIndex>, region: set<object>)

  ghost predicate ItemValid(item: TableIndex, region: set<object>)
    reads region
  {
    item in region && item.tree in region && item.Foot() <= region && item.Valid()
  }

  lemma ItemOwns(item: TableIndex, region: set<object>)
    requires ItemValid(item, region)
    ensures item.Foot() <= region && item.Valid()
  {
  }

  ghost predicate ShelfValid(s: Shelf)
    reads s.region
  {
    && (forall i :: 0 <= i < |s.items| ==> ItemValid(s.items[i], s.region))
    && forall i, j :: 0 <= i < j < |s.items| ==>
         s.items[i].tableName != s.items[j].tableName && s.items[i].Foot() !! s.items[j].Foot()
  }

  /** The entries by name are those of the items. */
  ghost predicate Tabulates(entries: map<string, TableEntry>, s: Shelf)
    requires ShelfValid(s)
    reads s.region
  {
    && (forall i :: 0 <= i < |s.items| ==> ItemValid(s.items[i], s.region))
    && (forall i :: 0 <= i < |s.items| ==>
          s.items[i].tableName in entries && entries[s.items[i].tableName] == s.items[i].State())
    && forall name :: name in entries ==> exists i :: 0 <= i < |s.items| && s.items[i].tableName == name
  }

  /** What is left alone by work on item `k`. */
  twostate lemma OtherItem(s: Shelf, new k: nat, new i: nat)
    requires old(ShelfValid(s)) && k < |s.items| && i < |s.items| && i != k
    requires unchanged(s.region - old(s.items[k].Foot()))
    ensures ItemValid(s.items[i], s.region) && s.items[i].State() == old(s.items[i].State())
    ensures s.items[i].Foot() == old(s.items[i].Foot()) && s.items[i].Foot() !! old(s.items[k].Foot())
  {
    assert old(ItemValid(s.items[i], s.region));
    assert old(s.items[i].Foot()) !! old(s.items[k].Foot());
  }

  twostate lemma ShelfAfterItem(s: Shelf, new k: nat)
    requires old(ShelfValid(s)) && k < |s.items|
    requires unchanged(s.region - old(s.items[k].Foot()))
    requires s.items[k].Valid() && fresh(s.items[k].Foot() - old(s.items[k].Foot()))
    ensures var s' := Shelf(s.items, s.region + s.items[k].Foot()); ShelfValid(s') && ItemValid(s.items[k], s'.region)
  {
    var s' := Shelf(s.items, s.region + s.items[k].Foot());
    assert old(ItemValid(s.items[k], s.region));
    forall i | 0 <= i < |s.items| ensures ItemValid(s.items[i], s'.region) {
      if i != k {
        OtherItem(s, k, i);
      }
    }
    forall i, j | 0 <= i < j < |s.items| ensures s.items[i].Foot() !! s.items[j].Foot() {
      assert old(s.items[i].Foot()) !! old(s.items[j].Foot());
      assert old(ItemValid(s.items[i], s.region)) && old(ItemValid(s.items[j], s.region));
      if i != k { OtherItem(s, k, i); }
      if j != k { OtherItem(s, k, j); }
    }
  }

  /** Work on one item, within its own objects and new ones, keeps the shelf and changes one entry. */
  twostate lemma AfterItem(s: Shelf, new entries: map<string, TableEntry>, new k: nat)
    requires old(ShelfValid(s) && Tabulates(entries, s)) && k < |s.items|
    requires unchanged(s.region - old(s.items[k].Foot()))
    requires s.items[k].Valid() && fresh(s.items[k].Foot() - old(s.items[k].Foot()))
    ensures var s' := Shelf(s.items, s.region + s.items[k].Foot());
      && ShelfValid(s') && ItemValid(s.items[k], s'.region)
      && Tabulates(entries[s.items[k].tableName := s.items[k].State()], s')
  {
    hide TableIndex.State, TableIndex.Foot, TableIndex.Valid;
    ShelfAfterItem(s, k);
    forall i | 0 <= i < |s.items| && i != k
      ensures s.items[i].State() == old(s.items[i].State()) && s.items[i].tableName != s.items[k].tableName
    {
      OtherItem(s, k, i);
    }
  }

  lemma ShelfGrows(before: Shelf, item: TableIndex, after: Shelf)
    requires ShelfValid(before) && item.Valid() && before.region !! item.Foot()
    requires after.items == before.items + [item] && before.region + item.Foot() <= after.region
    requires forall i :: 0 <= i < |before.items| ==> before.items[i].tableName != item.tableName
    ensures ShelfValid(after)
  {
  }

  lemma AfterNewItem(before: Shelf, entries: map<string, TableEntry>, item: TableIndex, after: Shelf)
    requires ShelfValid(before) && Tabulates(entries, before)
    requires item.Valid() && item.State() == UNLOADED && item.tableName !in entries
    requires before.region !! item.Foot()
    requires after.items == before.items + [item] && before.region + item.Foot() <= after.region
    ensures ShelfValid(after) && Tabulates(entries[item.tableName := UNLOADED], after)
    ensures ItemValid(item, after.region)
  {
    ShelfGrows(before, item, after);
    var entries' := entries[item.tableName := UNLOADED];
    forall i | 0 <= i < |after.items|
      ensures after.items[i].tableName in entries' && entries'[after.items[i].tableName] == after.items[i].State()
    {
      if i < |before.items| {
        assert after.items[i] == before.items[i];
      }
    }
    forall name | name in entries' ensures exists i :: 0 <= i < |after.items| && after.items[i].tableName == name {
      if name == item.tableName {
        assert after.items[|before.items|].tableName == name;
      } else {
        var i :| 0 <= i < |before.items| && before.items[i].tableName == name;
        assert after.items[i].tableName == name;
      }
    }
  }

  function Get(m: map<int, int>, key: int): Option<int> {
    if key in m then Some(m[key]) else None
  }

  /** The registry: at most one index per table, in an array that doubles when it is full. */
  class Registry {
    var slots: array<TableIndex?>
    var count: nat
    var forceNextRegisterFailure: bool
    ghost var items: seq<TableIndex>
    ghost var entries: map<string, TableEntry>
    ghost var repr: set<object>

    ghost predicate Valid()
      reads this, repr, slots
      ensures Valid() ==> this in repr && slots in repr
    {
      && this in repr && slots in repr && Filled()
      && ShelfValid(MyShelf()) && Tabulates(entries, MyShelf())
    }

    /** The first slots of the array hold the items, in order. */
    ghost predicate Filled()
      reads this, slots
    {
      count == |items| <= slots.Length && forall i :: 0 <= i < count ==> slots[i] == items[i]
    }

    /** What the items own. */
    ghost function Region(): set<object>
      reads this
    {
      repr - {this, slots}
    }

    ghost function MyShelf(): Shelf
      reads this
    {
      Shelf(items, Region())
    }

    lemma Opened() returns (shelf: Shelf)
      requires Valid()
      ensures shelf == Shelf(items, Region()) && ShelfValid(shelf) && Tabulates(entries, shelf)
      ensures Filled() && this !in shelf.region && slots !in shelf.region && repr == shelf.region + {this, slots}
    {
      shelf := MyShelf();
      assert repr == shelf.region + {this, slots};
    }

    constructor ()
      ensures Valid() && entries == map[] && !forceNextRegisterFailure && fresh(repr)
    {
      slots := new TableIndex?[0];
      count, forceNextRegisterFailure := 0, false;
      items, entries, repr := [], map[], {this, slots};
    }

    /** `find_table_index`: a linear search by name. */
    method FindTableIndex(name: string) returns (found: TableIndex?, ghost k: nat)
      requires Valid()
      ensures found == null <==> name !in entries
      ensures found != null ==>
        k < |items| && found == items[k] && found.tableName == name && ItemValid(found, Region())
      ensures found != null ==> entries[name] == found.State()
    {
      k := 0;
      var index := 0;
      while index < count
        invariant index <= count
        invariant forall i :: 0 <= i < index ==> items[i].tableName != name
      {
        assert ItemValid(items[index], Region());
        if slots[index].tableName == name {
          return slots[index], index;
        }
        index := index + 1;
      }
      found := null;
    }

    /** Doubles a full array: every slot in use is copied, the rest is free. */
    method MakeRoom()
      requires Filled()
      modifies this`slots
      ensures Filled() && count < slots.Length && (slots == old(slots) || fresh(slots))
      ensures slots.Length ==
        if count < old(slots.Length) then old(slots.Length) else if count == 0 then 4 else count * 2
    {
      if count < slots.Length {
        return;
      }
      var larger := new TableIndex?[if count == 0 then 4 else count * 2];
      var index := 0;
      while index < count
        invariant Filled() && index <= count && forall i :: 0 <= i < index ==> larger[i] == items[i]
      {
        larger[index] := slots[index];
        index := index + 1;
      }
      slots := larger;
    }

    method Push(entry: TableIndex)
      requires Filled() && count < slots.Length
      modifies this`count, this`items, slots
      ensures Filled() && items == old(items) + [entry] && count == old(count) + 1
    {
      slots[count] := entry;
      count := count + 1;
      items := items + [entry];
    }

    /** The second half of `get_or_create_table_index`: a new entry at the end, after doubling a full array. */
    method Append(name: string) returns (entry: TableIndex)
      requires Valid() && name !in entries
      modifies this, slots
      ensures Valid() && fresh(repr - old(repr)) && forceNextRegisterFailure == old(forceNextRegisterFailure)
      ensures items == old(items) + [entry] && entry.tableName == name && ItemValid(entry, Region())
      ensures slots.Length ==
        if old(count) < old(slots.Length) then old(slots.Length) else if old(count) == 0 then 4 else old(count) * 2
      ensures entries == old(entries)[name := UNLOADED]
    {
      hide *;
      ghost var shelf := Opened();
      MakeRoom();
      entry := new TableIndex(name);
      ghost var region := shelf.region + entry.Foot();
      ghost var grown := Shelf(items + [entry], region);
      AfterNewItem(shelf, entries, entry, grown);
      assert this !in region && slots !in region && ItemValid(entry, region);
      Push(entry);
      assert ShelfValid(grown) && Tabulates(entries[name := UNLOADED], grown) && ItemValid(entry, region);
      Settle(entries[name := UNLOADED], region);
      assert ItemValid(entry, region);
    }

    /** Takes up the new entries and the objects they own. */
    ghost method Settle(entries': map<string, TableEntry>, region: set<object>)
      requires Filled() && this !in region && slots !in region
      requires ShelfValid(Shelf(items, region)) && Tabulates(entries', Shelf(items, region))
      modifies this`entries, this`repr
      ensures Valid() && entries == entries' && repr == region + {this, slots} && Region() == region
    {
      hide ShelfValid, Tabulates;
      entries, repr := entries', region + {this, slots};
      assert Region() == region;
    }

    /** `get_or_create_table_index`. */
    method GetOrCreate(name: string) returns (entry: TableIndex, ghost k: nat)
      requires Valid()
      modifies this, slots
      ensures Valid() && fresh(repr - old(repr)) && forceNextRegisterFailure == old(forceNextRegisterFailure)
      ensures k < |items| && entry == items[k] && entry.tableName == name && ItemValid(entry, Region())
      ensures entries == old(entries)[name := EntryIn(old(entries), name)] && entry.State() == entries[name]
    {
      var existing;
      existing, k := FindTableIndex(name);
      if existing != null {
        entry := existing;
      } else {
        k := |items|;
        entry := Append(name);
      }
    }

    /** `ensure_loaded`, once the entry is there. */
    method LoadItem(ghost k: nat, entry: TableIndex, file: Option<string>, budget: nat)
      returns (error: Option<IndexError>, left: nat)
      requires Valid() && k < |items| && entry == items[k] && ItemValid(entry, Region())
      modifies entry.Foot(), this`entries, this`repr
      ensures Valid() && fresh(repr - old(repr)) && ItemValid(entry, Region())
      ensures var load := IndexSpec.EnsureLoaded(old(entry.State()), file, budget);
        && entries == old(entries)[entry.tableName := load.entry] && error == load.error && left == load.left
        && entry.State() == load.entry
    {
      hide *;
      ghost var shelf := Opened();
      ItemOwns(entry, shelf.region);
      error, left := entry.EnsureLoaded(file, budget);
      AfterItem(shelf, entries, k);
      ghost var region := shelf.region + entry.Foot();
      assert ItemValid(entry, region);
      Settle(entries[entry.tableName := entry.State()], region);
      assert ItemValid(entry, region);
    }

    /** `ensure_loaded`: only the entry of this table may change. */
    method EnsureLoaded(name: string, file: Option<string>, budget: nat)
      returns (entry: TableIndex, ghost k: nat, error: Option<IndexError>, left: nat)
      requires Valid()
      modifies repr
      ensures Valid() && fresh(repr - old(repr)) && forceNextRegisterFailure == old(forceNextRegisterFailure)
      ensures k < |items| && entry == items[k] && entry.tableName == name && ItemValid(entry, Region())
      ensures var load := IndexSpec.EnsureLoaded(EntryIn(old(entries), name), file, budget);
        && entries == old(entries)[name := load.entry] && error == load.error && left == load.left
        && entry.State() == load.entry
    {
      hide *;
      entry, k := GetOrCreate(name);
      ghost var shelf := Opened();
      ItemOwns(entry, shelf.region);
      error, left := LoadItem(k, entry, file, budget);
    }

    /** `ensure_loaded` when other memory may run out: for a new entry, or in a scan, whose rows are then dropped. */
    method LoadUnlessHalted(name: string, file: Option<string>, budget: nat, halt: Halt)
      returns (entry: TableIndex?, error: Option<IndexError>, left: nat)
      requires Valid()
      modifies repr
      ensures Valid() && fresh(repr - old(repr)) && forceNextRegisterFailure == old(forceNextRegisterFailure)
      ensures var (entries', load) := LoadIn(old(entries), name, file, budget, halt);
        && entries == entries' && error == load.error && left == load.left
        && (error.None? ==> entry != null && ItemValid(entry, Region()) && entry.State() == load.entry)
    {
      hide *;
      LoadInSteps(entries, name, file, budget, halt);
      ghost var k;
      if halt.AtEntry? {
        entry, k := FindTableIndex(name);
        if entry == null {
          return null, Some(NoMemory), 0;
        }
      } else if halt.InScan? && file.Some? {
        var loaded := IsLoaded(name);
        if !loaded {
          entry, k := GetOrCreate(name);
          Invalidate(name);
          assert entries == old(entries)[name := UNLOADED];
          return null, Some(NoMemory), 0;
        }
      }
      entry, k, error, left := EnsureLoaded(name, file, budget);
    }

    /** `table_index_get_next_id`. */
    method GetNextId(name: string, file: Option<string>, budget: nat, halt: Halt)
      returns (error: Option<IndexError>, nextId: int, left: nat)
      requires Valid()
      modifies repr
      ensures Valid() && fresh(repr - old(repr)) && forceNextRegisterFailure == old(forceNextRegisterFailure)
      ensures var (entries', load) := LoadIn(old(entries), name, file, budget, halt);
        && entries == entries' && error == load.error && left == load.left
        && (error.None? ==> nextId == load.entry.nextId)
    {
      hide LoadIn, HaltsLoad;
      var entry;
      entry, error, left := LoadUnlessHalted(name, file, budget, halt);
      nextId := if error.None? then entry.nextId else 0;
    }

    /** `table_index_find_row`: what the tree of the loaded entry holds for the id. */
    method FindRow(name: string, file: Option<string>, id: int, budget: nat, halt: Halt)
      returns (error: Option<IndexError>, offset: Option<int>, left: nat)
      requires Valid() && Sound(EntryIn(entries, name))
      modifies repr
      ensures Valid() && fresh(repr - old(repr)) && forceNextRegisterFailure == old(forceNextRegisterFailure)
      ensures Sound(LoadIn(old(entries), name, file, budget, halt).1.entry)
      ensures var (entries', load) := LoadIn(old(entries), name, file, budget, halt);
        && entries == entries' && error == load.error && left == load.left
        && (error.None? ==> load.entry.loaded && offset == Get(Contents(load.entry.tree.root), id))
    {
      hide *;
      LoadInTouchesOne(entries, name, file, budget, halt);
      var entry;
      entry, error, left := LoadUnlessHalted(name, file, budget, halt);
      offset := None;
      if error.None? {
        ItemOwns(entry, Region());
        offset := entry.Find(id);
      }
    }

    /** The insertion of `table_index_register_row` into a loaded entry. */
    method RegisterItem(ghost k: nat, entry: TableIndex, id: int, offset: nat, budget: nat)
      returns (error: Option<IndexError>, left: nat)
      requires Valid() && k < |items| && entry == items[k] && ItemValid(entry, Region())
      requires Sound(entry.State()) && entry.State().loaded
      modifies entry.Foot(), this`entries, this`repr
      ensures Valid() && fresh(repr - old(repr))
      ensures var reg := RegisterIn(old(entry.State()), id, offset, budget);
        && entries == old(entries)[entry.tableName := reg.entry] && error == reg.error && left == reg.left
    {
      hide *;
      ghost var shelf := Opened();
      ItemOwns(entry, shelf.region);
      error, left := entry.Register(id, offset, budget);
      AfterItem(shelf, entries, k);
      Settle(entries[entry.tableName := entry.State()], shelf.region + entry.Foot());
    }

    /** `table_index_register_row`: a forced failure is reported once and changes no entry. */
    method RegisterRow(name: string, file: Option<string>, id: int, offset: nat, budget: nat)
      returns (error: Option<IndexError>, left: nat)
      requires Valid() && Sound(EntryIn(entries, name))
      modifies repr
      ensures Valid() && fresh(repr - old(repr)) && !forceNextRegisterFailure
      ensures old(forceNextRegisterFailure) ==> error == Some(Forced) && left == budget && entries == old(entries)
      ensures var reg := RegisterRowIn(EntryIn(old(entries), name), file, id, offset, budget);
        !old(forceNextRegisterFailure) ==>
          entries == old(entries)[name := reg.entry] && error == reg.error && left == reg.left
    {
      if forceNextRegisterFailure {
        Unforce();
        return Some(Forced), budget;
      }
      error, left := RegisterUnforced(name, file, id, offset, budget);
    }

    method RegisterUnforced(name: string, file: Option<string>, id: int, offset: nat, budget: nat)
      returns (error: Option<IndexError>, left: nat)
      requires Valid() && Sound(EntryIn(entries, name))
      modifies repr
      ensures Valid() && fresh(repr - old(repr)) && forceNextRegisterFailure == old(forceNextRegisterFailure)
      ensures var reg := RegisterRowIn(EntryIn(old(entries), name), file, id, offset, budget);
        entries == old(entries)[name := reg.entry] && error == reg.error && left == reg.left
    {
      hide *;
      RegisterRowInSteps(EntryIn(entries, name), file, id, offset, budget);
      var entry;
      ghost var k;
      entry, k, error, left := EnsureLoaded(name, file, budget);
      if error.None? {
        ghost var shelf := Opened();
        ItemOwns(entry, shelf.region);
        error, left := RegisterItem(k, entry, id, offset, left);
      }
    }

    method Unforce()
      requires Valid()
      modifies this`forceNextRegisterFailure
      ensures Valid() && !forceNextRegisterFailure
    {
      forceNextRegisterFailure := false;
    }

    /** `table_index_force_next_register_failure`. */
    method ForceNextRegisterFailure()
      requires Valid()
      modifies this`forceNextRegisterFailure
      ensures Valid() && forceNextRegisterFailure
    {
      forceNextRegisterFailure := true;
    }

    /** `table_index_invalidate`: a table without an entry gets none. */
    method Invalidate(name: string)
      requires Valid()
      modifies repr
      ensures Valid() && fresh(repr - old(repr)) && forceNextRegisterFailure == old(forceNextRegisterFailure)
      ensures entries == if name in old(entries) then old(entries)[name := UNLOADED] else old(entries)
    {
      hide *;
      var found;
      ghost var k;
      found, k := FindTableIndex(name);
      if found != null {
        ghost var shelf := Opened();
        ItemOwns(found, shelf.region);
        found.Clear();
        AfterItem(shelf, entries, k);
        Settle(entries[name := UNLOADED], shelf.region + found.Foot());
      }
    }

    /** `table_index_is_loaded`. */
    method IsLoaded(name: string) returns (r: bool)
      requires Valid()
      ensures r == EntryIn(entries, name).loaded
    {
      var found;
      ghost var k;
      found, k := FindTableIndex(name);
      r := found != null && found.loaded;
    }

    /** `table_index_registry_reset`. */
    method Reset()
      requires Valid()
      modifies this
      ensures Valid() && entries == map[] && !forceNextRegisterFailure && fresh(repr - old(repr))
    {
      slots := new TableIndex?[0];
      count, forceNextRegisterFailure := 0, false;
      items, entries, repr := [], map[], {this, slots};
    }
  }
}
