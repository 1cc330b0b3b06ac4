/**
  What every insertion into the B+ tree keeps, for every key order: balance,
  ordering, separators, node sizes and the finite map the tree stands for.
*/
module BTreeLaws {
  import opened Wrappers
  import opened BTreeModel

  ghost predicate HasKey(es: seq<Entry>, key: int) {
    exists i :: 0 <= i < |es| && es[i].0 == key
  }

  ghost predicate GoodKids(kids: seq<Tree>, h: nat) {
    forall i :: 0 <= i < |kids| ==> Balanced(kids[i], h) && Shaped(kids[i]) && Separated(kids[i])
  }

  /** The one or two subtrees of an outcome are sound at height `h` and store exactly `es`. */
  ghost predicate Holds(o: Outcome, h: nat, es: seq<Entry>) {
    match o
    case Duplicate => false
    case Stored(t) => Balanced(t, h) && Shaped(t) && Separated(t) && Entries(t) == es
    case Split(left, sep, right) =>
      && Balanced(left, h) && Shaped(left) && Separated(left) && Entries(left) != []
      && Balanced(right, h) && Shaped(right) && Separated(right) && Entries(right) != []
      && Entries(left) + Entries(right) == es && StartsAt(right, sep)
  }

  /** What `Put` owes its caller at height `h`. */
  ghost predicate PutKept(t: Tree, h: nat, key: int, value: int, o: Outcome)
    requires Shaped(t)
  {
    if o.Duplicate? then HasKey(Entries(t), key)
    else !HasKey(Entries(t), key) && Holds(o, h, SortedInsert(Entries(t), key, value))
  }

  lemma SortedParts(a: seq<Entry>, b: seq<Entry>, d: seq<Entry>)
    requires Sorted(a + b + d)
    ensures Sorted(b) && Sorted(d)
    ensures b != [] ==> Below(a, b[0].0)
  {
    var es := a + b + d;
    assert forall i :: 0 <= i < |a| ==> es[i] == a[i];
    assert forall i :: 0 <= i < |b| ==> es[|a| + i] == b[i];
    assert forall i :: 0 <= i < |d| ==> es[|a| + |b| + i] == d[i];
  }

  /** Left of the chosen child every key is smaller, right of it every key is larger. */
  lemma ChildBounds(keys: seq<int>, kids: seq<Tree>, key: int)
    requires Search(Branch(keys, kids))
    ensures var c := ChildIndex(keys, key);
      && Below(AllEntries(kids[..c]), key)
      && Above(AllEntries(kids[c + 1..]), key)
      && Search(kids[c])
      && (c > 0 ==> Entries(kids[c]) != [] && Entries(kids[c])[0].0 <= key)
      && Entries(Branch(keys, kids)) == AllEntries(kids[..c]) + Entries(kids[c]) + AllEntries(kids[c + 1..])
  {
    var c := ChildIndex(keys, key);
    EntriesAround(kids, c);
    SortedParts(AllEntries(kids[..c]), Entries(kids[c]), AllEntries(kids[c + 1..]));
    if c > 0 {
      assert keys[c - 1] == Entries(kids[c])[0].0;
    }
    if c < |keys| {
      assert AllEntries(kids[c + 1..])[0] == Entries(kids[c + 1])[0];
    }
  }

  lemma LeafPlace(keys: seq<int>, vals: seq<int>, key: int, value: int)
    requires |keys| == |vals| && Sorted(Zip(keys, vals)) && !HasKey(Zip(keys, vals), key)
    ensures SortedInsert(Zip(keys, vals), key, value) == InsertAt(Zip(keys, vals), LowerBound(keys, key), (key, value))
  {
    var es := Zip(keys, vals);
    var i := LowerBound(keys, key);
    var p := SortedInsertPlace(es, key, value);
    assert forall j :: 0 <= j < p ==> es[..p][j] == es[j];
    assert forall j :: 0 <= j < |keys| ==> es[j].0 == keys[j] != key;
  }

  lemma LeafPutKept(keys: seq<int>, vals: seq<int>, key: int, value: int)
    requires BalancedRoot(Leaf(keys, vals), 0) && Sorted(Zip(keys, vals))
    ensures PutKept(Leaf(keys, vals), 0, key, value, Put(Leaf(keys, vals), key, value))
  {
    var es := Zip(keys, vals);
    var i := LowerBound(keys, key);
    if i < |keys| && keys[i] == key {
      assert es[i].0 == key;
    } else {
      LeafKeyIsNew(keys, vals, key);
      LeafPlace(keys, vals, key, value);
      LeafOutcomeKept(InsertAt(keys, i, key), InsertAt(vals, i, value));
      ZipInsert(keys, vals, i, key, value);
    }
  }

  lemma LeafKeyIsNew(keys: seq<int>, vals: seq<int>, key: int)
    requires |keys| == |vals| && Sorted(Zip(keys, vals))
    requires var i := LowerBound(keys, key); i < |keys| ==> keys[i] != key
    ensures !HasKey(Zip(keys, vals), key)
  {
  }

  lemma ZipInsert(keys: seq<int>, vals: seq<int>, i: nat, key: int, value: int)
    requires i <= |keys| == |vals|
    ensures Zip(InsertAt(keys, i, key), InsertAt(vals, i, value)) == InsertAt(Zip(keys, vals), i, (key, value))
  {
  }

  lemma LeafOutcomeKept(keys: seq<int>, vals: seq<int>)
    requires 2 <= |keys| == |vals| <= MAX_KEYS + 1
    ensures Holds(LeafOutcome(keys, vals), 0, Zip(keys, vals))
  {
    if |keys| > MAX_KEYS {
      var low, high := Zip(keys[..2], vals[..2]), Zip(keys[2..], vals[2..]);
      assert low + high == Zip(keys, vals);
      assert high[0].0 == keys[2];
    }
  }

  lemma BranchGood(keys: seq<int>, kids: seq<Tree>, h: nat)
    requires 1 <= |keys| <= MAX_KEYS && |kids| == |keys| + 1
    requires GoodKids(kids, h) && SeparatorsMatch(keys, kids)
    ensures var t := Branch(keys, kids);
      Balanced(t, h + 1) && Shaped(t) && Separated(t) && Entries(t) == AllEntries(kids) && Entries(t) != []
  {
    BalancedIsShaped(kids[0], h);
    assert Shaped(Branch(keys, kids));
  }

  lemma BranchOutcomeKept(keys: seq<int>, kids: seq<Tree>, h: nat)
    requires 1 <= |keys| <= MAX_KEYS + 1 && |kids| == |keys| + 1
    requires GoodKids(kids, h) && SeparatorsMatch(keys, kids)
    ensures Holds(BranchOutcome(keys, kids), h + 1, AllEntries(kids))
  {
    if |keys| <= MAX_KEYS {
      BranchGood(keys, kids, h);
    } else {
      OverfullBranchCut(keys, kids, h);
    }
  }

  lemma OverfullBranchCut(keys: seq<int>, kids: seq<Tree>, h: nat)
    requires |keys| == MAX_KEYS + 1 && |kids| == |keys| + 1
    requires GoodKids(kids, h) && SeparatorsMatch(keys, kids)
    ensures Holds(Split(Branch(keys[..2], kids[..3]), keys[2], Branch(keys[3..], kids[3..])), h + 1, AllEntries(kids))
  {
    assert SeparatorsMatch(keys[..2], kids[..3]);
    BranchGood(keys[..2], kids[..3], h);
    assert SeparatorsMatch(keys[3..], kids[3..]) by {
      assert keys[3..][0] == keys[3] && kids[3..][1] == kids[4];
    }
    BranchGood(keys[3..], kids[3..], h);
    AllEntriesConcat(kids[..3], kids[3..]);
    assert kids[..3] + kids[3..] == kids;
    assert AllEntries(kids[3..])[0] == Entries(kids[3])[0];
  }

  lemma HasKeyAround(a: seq<Entry>, b: seq<Entry>, d: seq<Entry>, key: int)
    requires Below(a, key) && Above(d, key)
    ensures HasKey(a + b + d, key) <==> HasKey(b, key)
  {
    var es := a + b + d;
    assert forall i :: 0 <= i < |b| ==> es[|a| + i] == b[i];
  }

  lemma {:induction false} PutKeeps(t: Tree, h: nat, key: int, value: int)
    requires BalancedRoot(t, h) && Search(t)
    ensures PutKept(t, h, key, value, Put(t, key, value))
    decreases t
  {
    match t
    case Leaf(keys, vals) => LeafPutKept(keys, vals, key, value);
    case Branch(keys, kids) =>
      var c := ChildIndex(keys, key);
      var a, b, d := AllEntries(kids[..c]), Entries(kids[c]), AllEntries(kids[c + 1..]);
      ChildBounds(keys, kids, key);
      PutKeeps(kids[c], h - 1, key, value);
      HasKeyAround(a, b, d, key);
      SortedInsertAround(a, b, d, key, value);
      match Put(kids[c], key, value) {
        case Duplicate =>
        case Stored(kid) => AbsorbStored(keys, kids, h, c, kid, key, value);
        case Split(left, sep, right) => AbsorbSplit(keys, kids, h, c, left, sep, right, key, value);
      }
  }

  lemma HeadSurvives(es: seq<Entry>, key: int, value: int)
    requires es != [] && es[0].0 <= key
    ensures SortedInsert(es, key, value)[0] == es[0]
  {
  }

  lemma AbsorbStored(keys: seq<int>, kids: seq<Tree>, h: nat, c: nat, kid: Tree, key: int, value: int)
    requires h > 0 && 1 <= |keys| <= MAX_KEYS && c < |kids| == |keys| + 1
    requires GoodKids(kids, h - 1) && SeparatorsMatch(keys, kids)
    requires Holds(Stored(kid), h - 1, SortedInsert(Entries(kids[c]), key, value))
    requires c > 0 ==> Entries(kids[c]) != [] && Entries(kids[c])[0].0 <= key
    ensures Holds(Stored(Branch(keys, kids[c := kid])), h,
      AllEntries(kids[..c]) + SortedInsert(Entries(kids[c]), key, value) + AllEntries(kids[c + 1..]))
  {
    var kids' := kids[c := kid];
    if c > 0 {
      HeadSurvives(Entries(kids[c]), key, value);
    }
    EntriesAround(kids', c);
    assert kids'[..c] == kids[..c] && kids'[c + 1..] == kids[c + 1..];
    forall i | 0 <= i < |keys| ensures StartsAt(kids'[i + 1], keys[i]) {
      assert StartsAt(kids[i + 1], keys[i]);
    }
    BranchGood(keys, kids', h - 1);
  }

  lemma AbsorbSplit(keys: seq<int>, kids: seq<Tree>, h: nat, c: nat, left: Tree, sep: int, right: Tree,
                    key: int, value: int)
    requires h > 0 && 1 <= |keys| <= MAX_KEYS && c < |kids| == |keys| + 1
    requires GoodKids(kids, h - 1) && SeparatorsMatch(keys, kids)
    requires Holds(Split(left, sep, right), h - 1, SortedInsert(Entries(kids[c]), key, value))
    requires c > 0 ==> Entries(kids[c]) != [] && Entries(kids[c])[0].0 <= key
    ensures Holds(BranchOutcome(InsertAt(keys, c, sep), InsertAt(kids[c := left], c + 1, right)), h,
      AllEntries(kids[..c]) + SortedInsert(Entries(kids[c]), key, value) + AllEntries(kids[c + 1..]))
  {
    var keys', kids' := InsertAt(keys, c, sep), InsertAt(kids[c := left], c + 1, right);
    if c > 0 {
      HeadSurvives(Entries(kids[c]), key, value);
      assert (Entries(left) + Entries(right))[0] == Entries(left)[0];
      assert StartsAt(kids[c - 1 + 1], keys[c - 1]);
    }
    GoodKidsAfterSplit(kids, h - 1, c, left, right);
    SeparatorsAfterSplit(keys, kids, c, left, sep, right);
    EntriesAfterSplit(kids, c, left, right);
    BranchOutcomeKept(keys', kids', h - 1);
  }

  lemma GoodKidsAfterSplit(kids: seq<Tree>, h: nat, c: nat, left: Tree, right: Tree)
    requires c < |kids| && GoodKids(kids, h) && GoodKids([left, right], h)
    ensures GoodKids(InsertAt(kids[c := left], c + 1, right), h)
  {
    var kids' := InsertAt(kids[c := left], c + 1, right);
    assert [left, right][0] == left && [left, right][1] == right;
    forall i | 0 <= i < |kids'| ensures Balanced(kids'[i], h) && Shaped(kids'[i]) && Separated(kids'[i]) {
      assert kids'[i] == if i < c then kids[i] else if i == c then left else if i == c + 1 then right else kids[i - 1];
    }
  }

  lemma SeparatorsAfterSplit(keys: seq<int>, kids: seq<Tree>, c: nat, left: Tree, sep: int, right: Tree)
    requires |kids| == |keys| + 1 && c < |kids|
    requires forall i :: 0 <= i < |kids| ==> Shaped(kids[i])
    requires Shaped(left) && Shaped(right)
    requires SeparatorsMatch(keys, kids)
    requires StartsAt(right, sep)
    requires c > 0 ==> StartsAt(left, keys[c - 1])
    ensures var keys', kids' := InsertAt(keys, c, sep), InsertAt(kids[c := left], c + 1, right);
      && (forall i :: 0 <= i < |kids'| ==> Shaped(kids'[i]))
      && SeparatorsMatch(keys', kids')
  {
    hide StartsAt, Shaped;
    var keys', kids' := InsertAt(keys, c, sep), InsertAt(kids[c := left], c + 1, right);
    forall i | 0 <= i < |kids'| ensures Shaped(kids'[i]) {
      assert kids'[i] == if i < c then kids[i] else if i == c then left else if i == c + 1 then right else kids[i - 1];
    }
    forall i | 0 <= i < |keys'| ensures StartsAt(kids'[i + 1], keys'[i]) {
      if i + 1 < c {
        assert kids'[i + 1] == kids[i + 1] && keys'[i] == keys[i];
      } else if i + 1 == c {
        assert kids'[i + 1] == left && keys'[i] == keys[c - 1];
      } else if i == c {
        assert kids'[i + 1] == right && keys'[i] == sep;
      } else {
        assert kids'[i + 1] == kids[i - 1 + 1] && keys'[i] == keys[i - 1];
      }
    }
  }

  lemma EntriesAfterSplit(kids: seq<Tree>, c: nat, left: Tree, right: Tree)
    requires c < |kids| && Shaped(left) && Shaped(right)
    requires forall i :: 0 <= i < |kids| ==> Shaped(kids[i])
    ensures var kids' := InsertAt(kids[c := left], c + 1, right);
      && (forall i :: 0 <= i < |kids'| ==> Shaped(kids'[i]))
      && AllEntries(kids') == AllEntries(kids[..c]) + (Entries(left) + Entries(right)) + AllEntries(kids[c + 1..])
  {
    assert InsertAt(kids[c := left], c + 1, right) == kids[..c] + [left, right] + kids[c + 1..];
    AllEntriesConcat(kids[..c] + [left, right], kids[c + 1..]);
    AllEntriesConcat(kids[..c], [left, right]);
    assert [left, right][1..] == [right];
    assert AllEntries([left, right]) == Entries(left) + AllEntries([right]);
    assert AllEntries([right]) == Entries(right);
  }

  // ----- The tree as a finite map ------------------------------------------

  /** A search answers exactly what the map says, for present and absent keys alike. */
  lemma {:induction false} LookupIsMapGet(t: Tree, key: int)
    requires Search(t)
    ensures Lookup(t, key) == var m := AsMap(Entries(t)); if key in m then Some(m[key]) else None
    decreases t
  {
    match t
    case Leaf(keys, vals) =>
      AsMapOfSorted(Zip(keys, vals), key);
      LeafLookupFinds(keys, vals, key);
    case Branch(keys, kids) =>
      var c := ChildIndex(keys, key);
      var a, b, d := AllEntries(kids[..c]), Entries(kids[c]), AllEntries(kids[c + 1..]);
      ChildBounds(keys, kids, key);
      LookupIsMapGet(kids[c], key);
      AsMapAround(a, b, d, key);
  }

  lemma LeafLookupFinds(keys: seq<int>, vals: seq<int>, key: int)
    requires |keys| == |vals|
    ensures LeafLookup(keys, vals, key).Some? <==> HasKey(Zip(keys, vals), key)
    ensures LeafLookup(keys, vals, key).Some? ==> (key, LeafLookup(keys, vals, key).value) in Zip(keys, vals)
  {
  }

  lemma {:induction false} NotInAsMap(es: seq<Entry>, key: int)
    requires !HasKey(es, key)
    ensures key !in AsMap(es)
  {
    if es != [] {
      assert forall i :: 0 <= i < |es[1..]| ==> es[1..][i] == es[i + 1];
      NotInAsMap(es[1..], key);
    }
  }

  lemma AsMapAround(a: seq<Entry>, b: seq<Entry>, d: seq<Entry>, key: int)
    requires Below(a, key) && Above(d, key)
    ensures key in AsMap(a + b + d) <==> key in AsMap(b)
    ensures key in AsMap(b) ==> AsMap(a + b + d)[key] == AsMap(b)[key]
  {
    NotInAsMap(a, key);
    NotInAsMap(d, key);
    AsMapConcat(a + b, d);
    AsMapConcat(a, b);
  }

  /**
    One insertion, in any key order: a key already present is refused, any other
    adds exactly its own binding, and the result is again a B+ tree of the same
    height or, when the root splits, one higher.
  */
  lemma InsertRefinesMap(root: Option<Tree>, key: int, value: int)
    requires IsBPlusTree(root)
    ensures var r := InsertRoot(root, key, value);
      && (r.Rejected? <==> key in Contents(root))
      && (r.Inserted? ==> IsBPlusTree(Some(r.root)) && Contents(Some(r.root)) == Contents(root)[key := value])
  {
    match root
    case None =>
      assert BalancedRoot(Leaf([key], [value]), 0);
      assert Entries(Leaf([key], [value])) == [(key, value)];
      assert AsMap([(key, value)]) == AsMap([(key, value)][1..])[key := value];
    case Some(t) =>
      var h: nat :| BalancedRoot(t, h);
      PutKeeps(t, h, key, value);
      AsMapOfSorted(Entries(t), key);
      if Put(t, key, value) != Duplicate {
        SortedInsertKeepsSorted(Entries(t), key, value);
        AsMapOfSortedInsert(Entries(t), key, value);
        RootFromOutcome(Put(t, key, value), h, SortedInsert(Entries(t), key, value));
      }
  }

  /** The root that `bptree_insert` installs for an outcome. */
  function RootOf(o: Outcome): Tree
    requires !o.Duplicate?
  {
    match o
    case Stored(t) => t
    case Split(left, sep, right) => Branch([sep], [left, right])
  }

  lemma RootFromOutcome(o: Outcome, h: nat, es: seq<Entry>)
    requires Holds(o, h, es) && Sorted(es)
    ensures var t := RootOf(o); Shaped(t) && Entries(t) == es && Search(t)
    ensures Balanced(RootOf(o), if o.Split? then h + 1 else h)
    ensures IsBPlusTree(Some(RootOf(o)))
  {
    if o.Split? {
      var kids := [o.left, o.right];
      assert kids[0] == o.left && kids[1] == o.right;
      assert GoodKids(kids, h);
      assert SeparatorsMatch([o.sep], kids);
      BranchGood([o.sep], kids, h);
      assert kids[1..] == [o.right];
      assert AllEntries(kids[1..]) == Entries(o.right);
      assert BalancedRoot(RootOf(o), h + 1);
    } else {
      assert BalancedRoot(RootOf(o), h);
    }
  }

  /** A run of `bptree_insert` calls; a refused call leaves the tree as it was. */
  ghost function InsertAll(pairs: seq<Entry>): (root: Option<Tree>)
    ensures IsBPlusTree(root)
  {
    if pairs == [] then None
    else
      var before := InsertAll(pairs[..|pairs| - 1]);
      var last := pairs[|pairs| - 1];
      InsertRefinesMap(before, last.0, last.1);
      match InsertRoot(before, last.0, last.1)
      case Rejected => before
      case Inserted(t, _) => Some(t)
  }

  /** The same run on a plain finite map: the first value given to a key stays. */
  ghost function MapAll(pairs: seq<Entry>): map<int, int> {
    if pairs == [] then map[]
    else
      var before, last := MapAll(pairs[..|pairs| - 1]), pairs[|pairs| - 1];
      if last.0 in before then before else before[last.0 := last.1]
  }

  /** Whatever keys come in whatever order, the tree and the map answer every search alike. */
  lemma {:induction false} EveryRunRefinesMap(pairs: seq<Entry>, key: int)
    ensures var root, m := InsertAll(pairs), MapAll(pairs);
      && Contents(root) == m
      && (if root.None? then None else Lookup(root.value, key)) == (if key in m then Some(m[key]) else None)
  {
    if pairs != [] {
      var before, last := InsertAll(pairs[..|pairs| - 1]), pairs[|pairs| - 1];
      EveryRunRefinesMap(pairs[..|pairs| - 1], key);
      InsertRefinesMap(before, last.0, last.1);
    }
    if InsertAll(pairs).Some? {
      LookupIsMapGet(InsertAll(pairs).value, key);
    }
  }

  // ----- Allocations -------------------------------------------------------

  function NodeCount(t: Tree): nat
    decreases t, 0
  {
    match t
    case Leaf(_, _) => 1
    case Branch(_, kids) => 1 + AllNodes(kids)
  }

  function AllNodes(kids: seq<Tree>): nat
    decreases kids, 1
  {
    if kids == [] then 0 else NodeCount(kids[0]) + AllNodes(kids[1..])
  }

  function OutcomeNodes(o: Outcome): nat {
    match o
    case Duplicate => 0
    case Stored(t) => NodeCount(t)
    case Split(left, _, right) => NodeCount(left) + NodeCount(right)
  }

  lemma {:induction false} AllNodesConcat(a: seq<Tree>, b: seq<Tree>)
    ensures AllNodes(a + b) == AllNodes(a) + AllNodes(b)
  {
    if a == [] {
      assert a + b == b;
    } else {
      assert (a + b)[1..] == a[1..] + b;
      AllNodesConcat(a[1..], b);
    }
  }

  lemma BranchOutcomeNodes(keys: seq<int>, kids: seq<Tree>)
    requires |kids| == |keys| + 1
    ensures OutcomeNodes(BranchOutcome(keys, kids)) ==
      1 + AllNodes(kids) + if BranchOutcome(keys, kids).Split? then 1 else 0
  {
    if |keys| > MAX_KEYS {
      var mid := |keys| / 2 + 1;
      AllNodesConcat(kids[..mid], kids[mid..]);
      assert kids[..mid] + kids[mid..] == kids;
    }
  }

  lemma AllNodesAround(kids: seq<Tree>, c: nat, middle: seq<Tree>, kids': seq<Tree>)
    requires c < |kids| && kids' == kids[..c] + (middle + kids[c + 1..])
    ensures AllNodes(kids') == AllNodes(kids) - NodeCount(kids[c]) + AllNodes(middle)
  {
    var a, d := kids[..c], kids[c + 1..];
    assert kids == a + ([kids[c]] + d);
    AllNodesConcat(a, [kids[c]] + d);
    AllNodesConcat([kids[c]], d);
    AllNodesConcat(a, middle + d);
    AllNodesConcat(middle, d);
    assert AllNodes([kids[c]]) == NodeCount(kids[c]);
  }

  lemma AllNodesOfTwo(left: Tree, right: Tree)
    ensures AllNodes([left, right]) == NodeCount(left) + NodeCount(right)
  {
    assert [left, right][1..] == [right];
    assert AllNodes([right]) == NodeCount(right) + AllNodes([right][1..]);
  }

  /** No node is leaked or shared: the subtrees an insertion leaves have the old nodes and those it allocated. */
  lemma {:induction false} PutCountsNodes(t: Tree, key: int, value: int)
    requires Shaped(t) && !Put(t, key, value).Duplicate?
    ensures OutcomeNodes(Put(t, key, value)) == NodeCount(t) + Needs(t, key, value)
    decreases t
  {
    hide BranchOutcome, LowerBound;
    if t.Branch? {
      var c := ChildIndex(t.keys, key);
      PutCountsNodes(t.kids[c], key, value);
      match Put(t.kids[c], key, value) {
        case Stored(kid) =>
          AllNodesAround(t.kids, c, [kid], t.kids[c := kid]);
          assert AllNodes([kid]) == NodeCount(kid);
        case Split(left, sep, right) =>
          var kids' := InsertAt(t.kids[c := left], c + 1, right);
          assert kids' == t.kids[..c] + ([left, right] + t.kids[c + 1..]);
          AllNodesAround(t.kids, c, [left, right], kids');
          AllNodesOfTwo(left, right);
          BranchOutcomeNodes(InsertAt(t.keys, c, sep), kids');
      }
    }
  }

  /** What `bptree_insert` allocates is exactly the growth of the tree in nodes. */
  lemma InsertCountsNodes(root: Option<Tree>, key: int, value: int)
    requires root.Some? ==> Shaped(root.value)
    requires InsertRoot(root, key, value).Inserted?
    ensures var r := InsertRoot(root, key, value);
      NodeCount(r.root) == (if root.Some? then NodeCount(root.value) else 0) + r.cost
  {
    if root.Some? {
      PutCountsNodes(root.value, key, value);
      var o := Put(root.value, key, value);
      if o.Split? {
        AllNodesOfTwo(o.left, o.right);
      }
    }
  }
}
