/**
  The B+ tree of src/index/bptree.c as a value: what one insertion does to the
  tree, and what every insertion keeps. The heap classes of `BPlusTree` are
  proved against these functions.
*/
module BTreeModel {
  import opened Wrappers

  /** The largest number of keys a node holds once an insertion is over. */
  const MAX_KEYS := 3

  type Entry = (int, int)

  datatype Tree =
    | Leaf(keys: seq<int>, vals: seq<int>)
    | Branch(keys: seq<int>, kids: seq<Tree>)

  /** What inserting into one subtree hands to its parent. */
  datatype Outcome =
    | Duplicate
    | Stored(tree: Tree)
    | Split(left: Tree, sep: int, right: Tree)

  function InsertAt<T>(s: seq<T>, i: nat, x: T): seq<T>
    requires i <= |s|
  {
    s[..i] + [x] + s[i..]
  }

  /** Where a key goes in a leaf: the first slot whose key is not smaller. */
  function LowerBound(keys: seq<int>, key: int): (i: nat)
    ensures i <= |keys|
    ensures forall j :: 0 <= j < i ==> keys[j] < key
    ensures i < |keys| ==> keys[i] >= key
  {
    if keys == [] || keys[0] >= key then 0 else 1 + LowerBound(keys[1..], key)
  }

  /** Which child a key descends to: the first separator greater than the key. */
  function ChildIndex(keys: seq<int>, key: int): (i: nat)
    ensures i <= |keys|
    ensures forall j :: 0 <= j < i ==> keys[j] <= key
    ensures i < |keys| ==> key < keys[i]
  {
    if keys == [] || key < keys[0] then 0 else 1 + ChildIndex(keys[1..], key)
  }

  /** Array lengths that every node respects, whatever it stores. */
  predicate Shaped(t: Tree) {
    match t
    case Leaf(keys, vals) => |keys| == |vals|
    case Branch(keys, kids) => |kids| == |keys| + 1 && forall i :: 0 <= i < |kids| ==> Shaped(kids[i])
  }

  /** A leaf after one more pair, cut into 2 + 2 when it overflows. */
  function LeafOutcome(keys: seq<int>, vals: seq<int>): Outcome
    requires |keys| == |vals|
  {
    if |keys| <= MAX_KEYS then Stored(Leaf(keys, vals))
    else
      var mid := |keys| / 2;
      Split(Leaf(keys[..mid], vals[..mid]), keys[mid], Leaf(keys[mid..], vals[mid..]))
  }

  /** A branch after one more separator; the middle key moves up when it overflows. */
  function BranchOutcome(keys: seq<int>, kids: seq<Tree>): Outcome
    requires |kids| == |keys| + 1
  {
    if |keys| <= MAX_KEYS then Stored(Branch(keys, kids))
    else
      var mid := |keys| / 2;
      Split(Branch(keys[..mid], kids[..mid + 1]), keys[mid], Branch(keys[mid + 1..], kids[mid + 1..]))
  }

  /** Inserting one pair below a node. */
  function Put(t: Tree, key: int, value: int): (o: Outcome)
    requires Shaped(t)
    decreases t
  {
    match t
    case Leaf(keys, vals) =>
      var i := LowerBound(keys, key);
      if i < |keys| && keys[i] == key then Duplicate
      else LeafOutcome(InsertAt(keys, i, key), InsertAt(vals, i, value))
    case Branch(keys, kids) =>
      var c := ChildIndex(keys, key);
      match Put(kids[c], key, value)
      case Duplicate => Duplicate
      case Stored(kid) => Stored(Branch(keys, kids[c := kid]))
      case Split(left, sep, right) =>
        BranchOutcome(InsertAt(keys, c, sep), InsertAt(kids[c := left], c + 1, right))
  }

  /** How many nodes that insertion allocates. */
  function Needs(t: Tree, key: int, value: int): nat
    requires Shaped(t)
    decreases t
  {
    match t
    case Leaf(keys, vals) => if Put(t, key, value).Split? then 1 else 0
    case Branch(keys, kids) =>
      Needs(kids[ChildIndex(keys, key)], key, value) + if Put(t, key, value).Split? then 1 else 0
  }

  lemma PutInLeaf(keys: seq<int>, vals: seq<int>, key: int, value: int)
    requires Shaped(Leaf(keys, vals))
    ensures var i, o, needs :=
        LowerBound(keys, key), Put(Leaf(keys, vals), key, value), Needs(Leaf(keys, vals), key, value);
      if i < |keys| && keys[i] == key then o == Duplicate && needs == 0
      else
        var keys', vals' := InsertAt(keys, i, key), InsertAt(vals, i, value);
        if |keys| < MAX_KEYS then o == Stored(Leaf(keys', vals')) && needs == 0
        else o == LeafOutcome(keys', vals') && o.Split? && needs == 1
  {
    hide LowerBound;
  }

  datatype InsertResult = Rejected | Inserted(root: Tree, cost: nat)

  /** `bptree_insert` when every allocation succeeds. */
  function InsertRoot(root: Option<Tree>, key: int, value: int): InsertResult
    requires root.Some? ==> Shaped(root.value)
  {
    match root
    case None => Inserted(Leaf([key], [value]), 1)
    case Some(t) =>
      match Put(t, key, value)
      case Duplicate => Rejected
      case Stored(t') => Inserted(t', Needs(t, key, value))
      case Split(left, sep, right) => Inserted(Branch([sep], [left, right]), Needs(t, key, value) + 1)
  }

  /** `bptree_search`: one child per level, then a linear look at the leaf. */
  function Lookup(t: Tree, key: int): Option<int>
    requires Shaped(t)
    decreases t
  {
    match t
    case Leaf(keys, vals) => LeafLookup(keys, vals, key)
    case Branch(keys, kids) => Lookup(kids[ChildIndex(keys, key)], key)
  }

  function LeafLookup(keys: seq<int>, vals: seq<int>, key: int): (r: Option<int>)
    requires |keys| == |vals|
    ensures r.Some? <==> key in keys
    ensures r.Some? ==> exists i :: 0 <= i < |keys| && keys[i] == key && vals[i] == r.value
  {
    if keys == [] then None
    else if keys[0] == key then Some(vals[0])
    else
      var r := LeafLookup(keys[1..], vals[1..], key);
      assert r.Some? ==> exists i :: 0 <= i < |keys| && keys[i] == key && vals[i] == r.value by {
        if r.Some? {
          var i :| 0 <= i < |keys[1..]| && keys[1..][i] == key && vals[1..][i] == r.value;
          assert keys[i + 1] == key && vals[i + 1] == r.value;
        }
      }
      r
  }

  /** How many nodes a lookup visits. */
  function Visits(t: Tree, key: int): nat
    requires Shaped(t)
    decreases t
  {
    match t
    case Leaf(_, _) => 1
    case Branch(keys, kids) => 1 + Visits(kids[ChildIndex(keys, key)], key)
  }

  // ----- What a tree stores ------------------------------------------------

  function Zip(keys: seq<int>, vals: seq<int>): (es: seq<Entry>)
    requires |keys| == |vals|
    ensures |es| == |keys|
    ensures forall i :: 0 <= i < |es| ==> es[i] == (keys[i], vals[i])
  {
    seq(|keys|, i requires 0 <= i < |keys| => (keys[i], vals[i]))
  }

  /** The pairs of a tree from its leftmost leaf to its rightmost. */
  function Entries(t: Tree): seq<Entry>
    requires Shaped(t)
    decreases t, 0
  {
    match t
    case Leaf(keys, vals) => Zip(keys, vals)
    case Branch(keys, kids) => AllEntries(kids)
  }

  function AllEntries(kids: seq<Tree>): seq<Entry>
    requires forall i :: 0 <= i < |kids| ==> Shaped(kids[i])
    decreases kids, 1
  {
    if kids == [] then [] else Entries(kids[0]) + AllEntries(kids[1..])
  }

  ghost predicate Sorted(es: seq<Entry>) {
    forall i, j :: 0 <= i < j < |es| ==> es[i].0 < es[j].0
  }

  ghost predicate Below(es: seq<Entry>, key: int) {
    forall i :: 0 <= i < |es| ==> es[i].0 < key
  }

  ghost predicate Above(es: seq<Entry>, key: int) {
    forall i :: 0 <= i < |es| ==> key < es[i].0
  }

  /** The finite map a list of pairs stands for (an earlier pair wins). */
  function AsMap(es: seq<Entry>): map<int, int> {
    if es == [] then map[] else AsMap(es[1..])[es[0].0 := es[0].1]
  }

  function Contents(root: Option<Tree>): map<int, int>
    requires root.Some? ==> Shaped(root.value)
  {
    if root.None? then map[] else AsMap(Entries(root.value))
  }

  /** Insertion into a sorted list of pairs. */
  function SortedInsert(es: seq<Entry>, key: int, value: int): seq<Entry> {
    if es == [] || key < es[0].0 then [(key, value)] + es
    else [es[0]] + SortedInsert(es[1..], key, value)
  }

  // ----- The invariant -----------------------------------------------------

  /** Every leaf at depth `h`, 2 or 3 keys in a leaf, 1 to 3 keys in a branch. */
  ghost predicate Balanced(t: Tree, h: nat)
    decreases t
  {
    match t
    case Leaf(keys, vals) => h == 0 && |keys| == |vals| && 2 <= |keys| <= MAX_KEYS
    case Branch(keys, kids) =>
      && h > 0 && 1 <= |keys| <= MAX_KEYS && |kids| == |keys| + 1
      && forall i :: 0 <= i < |kids| ==> Balanced(kids[i], h - 1)
  }

  /** As `Balanced`, except that a leaf that is the root may hold a single key. */
  ghost predicate BalancedRoot(t: Tree, h: nat) {
    Balanced(t, h) || (h == 0 && t.Leaf? && |t.keys| == |t.vals| == 1)
  }

  /** `key` is the smallest key below `t`. */
  ghost predicate StartsAt(t: Tree, key: int)
    requires Shaped(t)
  {
    Entries(t) != [] && Entries(t)[0].0 == key
  }

  /** Each separator is the smallest key of the subtree to its right. */
  ghost predicate SeparatorsMatch(keys: seq<int>, kids: seq<Tree>)
    requires |kids| == |keys| + 1
    requires forall i :: 0 <= i < |kids| ==> Shaped(kids[i])
  {
    forall i :: 0 <= i < |keys| ==> StartsAt(kids[i + 1], keys[i])
  }

  ghost predicate Separated(t: Tree)
    requires Shaped(t)
    decreases t
  {
    t.Branch? ==>
      && SeparatorsMatch(t.keys, t.kids)
      && forall i :: 0 <= i < |t.kids| ==> Separated(t.kids[i])
  }

  ghost predicate Search(t: Tree) {
    Shaped(t) && Separated(t) && Sorted(Entries(t))
  }

  ghost predicate IsBPlusTree(root: Option<Tree>) {
    root.Some? ==> Search(root.value) && exists h: nat :: BalancedRoot(root.value, h)
  }

  lemma {:induction false} BalancedIsShaped(t: Tree, h: nat)
    requires BalancedRoot(t, h)
    ensures Shaped(t) && Entries(t) != []
    decreases t
  {
    if t.Branch? {
      forall i | 0 <= i < |t.kids| ensures Shaped(t.kids[i]) && Entries(t.kids[i]) != [] {
        BalancedIsShaped(t.kids[i], h - 1);
      }
      assert Entries(t) == Entries(t.kids[0]) + AllEntries(t.kids[1..]);
    }
  }

  // ----- Lists of pairs ----------------------------------------------------

  lemma {:induction false} AllEntriesConcat(a: seq<Tree>, b: seq<Tree>)
    requires forall i :: 0 <= i < |a| ==> Shaped(a[i])
    requires forall i :: 0 <= i < |b| ==> Shaped(b[i])
    ensures AllEntries(a + b) == AllEntries(a) + AllEntries(b)
  {
    if a == [] {
      assert a + b == b;
    } else {
      assert (a + b)[1..] == a[1..] + b;
      AllEntriesConcat(a[1..], b);
    }
  }

  /** The pairs of a branch, seen from one of its children. */
  lemma EntriesAround(kids: seq<Tree>, c: nat)
    requires c < |kids|
    requires forall i :: 0 <= i < |kids| ==> Shaped(kids[i])
    ensures AllEntries(kids) == AllEntries(kids[..c]) + Entries(kids[c]) + AllEntries(kids[c + 1..])
  {
    hide Entries, AllEntries;
    AllEntriesConcat(kids[..c], kids[c..]);
    assert kids[..c] + kids[c..] == kids;
    AllEntriesFirst(kids[c..]);
    assert kids[c..][1..] == kids[c + 1..];
  }

  lemma AllEntriesFirst(kids: seq<Tree>)
    requires kids != [] && forall i :: 0 <= i < |kids| ==> Shaped(kids[i])
    ensures AllEntries(kids) == Entries(kids[0]) + AllEntries(kids[1..])
  {
  }

  lemma {:induction false} SortedInsertAfter(a: seq<Entry>, b: seq<Entry>, key: int, value: int)
    requires Below(a, key)
    ensures SortedInsert(a + b, key, value) == a + SortedInsert(b, key, value)
  {
    if a == [] {
      assert a + b == b;
    } else {
      assert (a + b)[1..] == a[1..] + b;
      SortedInsertAfter(a[1..], b, key, value);
    }
  }

  lemma {:induction false} SortedInsertBefore(b: seq<Entry>, c: seq<Entry>, key: int, value: int)
    requires Above(c, key)
    ensures SortedInsert(b + c, key, value) == SortedInsert(b, key, value) + c
  {
    if b == [] {
      assert b + c == c;
      assert c == [] || key < c[0].0;
    } else if key < b[0].0 {
    } else {
      assert (b + c)[1..] == b[1..] + c;
      SortedInsertBefore(b[1..], c, key, value);
    }
  }

  lemma SortedInsertAround(a: seq<Entry>, b: seq<Entry>, c: seq<Entry>, key: int, value: int)
    requires Below(a, key) && Above(c, key)
    ensures SortedInsert(a + b + c, key, value) == a + SortedInsert(b, key, value) + c
  {
    SortedInsertBefore(a + b, c, key, value);
    SortedInsertAfter(a, b, key, value);
  }

  /** Sorted insertion puts the pair at one place and moves nothing else. */
  lemma {:induction false} SortedInsertPlace(es: seq<Entry>, key: int, value: int) returns (p: nat)
    ensures p <= |es| && SortedInsert(es, key, value) == InsertAt(es, p, (key, value))
    ensures Below(es[..p], key + 1) && (p < |es| ==> key < es[p].0)
  {
    p := 0;
    if es == [] || key < es[0].0 {
    } else {
      var q := SortedInsertPlace(es[1..], key, value);
      p := q + 1;
      assert es[..p] == [es[0]] + es[1..][..q];
      assert es[p..] == es[1..][q..];
    }
  }

  lemma SortedInsertKeepsSorted(es: seq<Entry>, key: int, value: int)
    requires Sorted(es)
    requires forall i :: 0 <= i < |es| ==> es[i].0 != key
    ensures Sorted(SortedInsert(es, key, value))
    ensures |SortedInsert(es, key, value)| == |es| + 1
  {
    var p := SortedInsertPlace(es, key, value);
    forall i | 0 <= i < p ensures es[i].0 < key {
      assert es[..p][i].0 < key + 1;
    }
  }

  lemma {:induction false} AsMapOfSortedInsert(es: seq<Entry>, key: int, value: int)
    requires forall i :: 0 <= i < |es| ==> es[i].0 != key
    ensures AsMap(SortedInsert(es, key, value)) == AsMap(es)[key := value]
  {
    if es == [] || key < es[0].0 {
      assert ([(key, value)] + es)[1..] == es;
    } else {
      var rest := SortedInsert(es[1..], key, value);
      AsMapOfSortedInsert(es[1..], key, value);
      assert ([es[0]] + rest)[1..] == rest;
    }
  }

  lemma {:induction false} AsMapOfSorted(es: seq<Entry>, key: int)
    requires Sorted(es)
    ensures key in AsMap(es) <==> exists i :: 0 <= i < |es| && es[i].0 == key
    ensures forall i :: 0 <= i < |es| ==> es[i].0 in AsMap(es) && AsMap(es)[es[i].0] == es[i].1
  {
    if es != [] {
      var rest := es[1..];
      AsMapOfSorted(rest, key);
      assert forall i :: 0 < i < |es| ==> es[i] == rest[i - 1];
      if key in AsMap(rest) {
        var i :| 0 <= i < |rest| && rest[i].0 == key;
        assert es[i + 1].0 == key;
      }
    }
  }

  lemma {:induction false} AsMapConcat(a: seq<Entry>, b: seq<Entry>)
    ensures AsMap(a + b) == AsMap(b) + AsMap(a)
  {
    if a == [] {
      assert a + b == b;
    } else {
      assert (a + b)[1..] == a[1..] + b;
      AsMapConcat(a[1..], b);
    }
  }
}
