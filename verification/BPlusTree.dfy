/**
  The mutable B+ tree of src/index/bptree.c: nodes with fixed arrays that are
  shifted and split in place, a `next` link between leaves, and a root that
  grows. Every node carries, as ghost state, the value of `BTreeModel` it
  stands for, the objects it owns and the leaves below it.
*/
module BPlusTree {
  import opened Wrappers
  import opened BTreeModel
  import opened BTreeLaws

  const DUPLICATE := "duplicate id key"

  /** What an insertion below a node reports to its caller. */
  datatype InsertState =
    | Failed(message: string)
    | Absorbed
    | SplitInto(promotedKey: int, rightNode: Node)

  ghost function Flatten(lists: seq<seq<Node>>): seq<Node> {
    if lists == [] then [] else lists[0] + Flatten(lists[1..])
  }

  /** Some children of a branch: the subtree and the leaves of each, and objects that include all they own. */
  datatype Family = Family(kids: seq<Node>, trees: seq<Tree>, leaves: seq<seq<Node>>, region: set<object>)

  /** One child's share of a leaf chain: the leaves before, below and after it, and whose objects they are. */
  datatype Share = Share(region: set<object>, inner: set<object>, before: seq<Node>, was: seq<Node>, after: seq<Node>)

  /** A family and all the objects of its branch. */
  datatype Place = Place(region: set<object>, family: Family)

  class Node {
    var isLeaf: bool
    var keyCount: nat
    const keys: array<int>
    const values: array<int>
    const children: array<Node?>
    var next: Node?

    ghost var model: Tree
    ghost var repr: set<object>
    ghost var family: Family
    ghost var leaves: seq<Node>

    constructor (leaf: bool)
      ensures fresh(Own())
      ensures ArraysFit()
      ensures isLeaf == leaf && keyCount == 0 && next == null
    {
      isLeaf, keyCount, next := leaf, 0, null;
      keys := new int[MAX_KEYS + 1](_ => 0);
      values := new int[MAX_KEYS + 1](_ => 0);
      children := new Node?[MAX_KEYS + 2](_ => null);
    }

    ghost predicate ArraysFit() {
      keys != values && keys.Length == values.Length == MAX_KEYS + 1 && children.Length == MAX_KEYS + 2
    }

    /** The node itself and its three arrays. */
    ghost function Own(): set<object> {
      {this, keys, values, children}
    }

    /** The node and everything below it represent `model`. */
    ghost predicate Valid()
      reads this, repr
      ensures Valid() ==> Own() <= repr && Shaped(model)
      decreases repr, 1
    {
      Represents()
    }

    ghost predicate Represents()
      reads this, repr
      ensures Represents() ==> Own() <= repr && Shaped(model)
      decreases repr, 0
    {
      && Own() <= repr && ArraysFit()
      && keyCount <= MAX_KEYS && Shaped(model)
      && isLeaf == model.Leaf? && keyCount == |model.keys| && keys[..keyCount] == model.keys
      && match model
         case Leaf(_, vals) => values[..keyCount] == vals && leaves == [this] && repr == Own()
         case Branch(_, trees) =>
           && family.trees == trees && family.region == repr - Own()
           && HoldsKids(family.kids) && KidsValid(family)
           && leaves == Flatten(family.leaves)
    }

    /** The child array holds exactly `kids`. */
    ghost predicate HoldsKids(kids: seq<Node>)
      reads this, children
    {
      keyCount < children.Length && |kids| == keyCount + 1 && forall i :: 0 <= i < |kids| ==> children[i] == kids[i]
    }

    static ghost predicate KidValid(kid: Node, tree: Tree, kidLeaves: seq<Node>, region: set<object>)
      reads region
      decreases region, 2
    {
      kid in region && kid.repr <= region && kid.model == tree && kid.leaves == kidLeaves && kid.Valid()
    }

    static ghost predicate KidsValid(f: Family)
      reads f.region
      decreases f.region, 3
    {
      && |f.kids| == |f.trees| == |f.leaves|
      && (forall i :: 0 <= i < |f.kids| ==> KidValid(f.kids[i], f.trees[i], f.leaves[i], f.region))
      && (forall i, j :: 0 <= i < j < |f.kids| ==> f.kids[i].repr !! f.kids[j].repr)
    }

    // ----- Searching within one node ---------------------------------------

    method FindChildIndex(key: int) returns (index: nat)
      requires Valid()
      ensures index == ChildIndex(model.keys, key)
    {
      index := 0;
      while index < keyCount && key >= keys[index]
        invariant index <= keyCount
        invariant forall j :: 0 <= j < index ==> model.keys[j] <= key
      {
        assert keys[..keyCount][index] == keys[index];
        index := index + 1;
      }
      assert index < keyCount ==> keys[..keyCount][index] == keys[index];
    }

    /** The scan of the one leaf that may hold the key. */
    method FindInLeaf(key: int) returns (found: bool, value: int)
      requires Valid() && isLeaf
      ensures Lookup(model, key) == if found then Some(value) else None
    {
      assert Represents();
      found, value := false, 0;
      var index := 0;
      while index < keyCount
        invariant index <= keyCount
        invariant LeafLookup(model.keys, model.vals, key) == LeafLookup(model.keys[index..], model.vals[index..], key)
      {
        if keys[index] == key {
          return true, values[index];
        }
        index := index + 1;
      }
    }

    // ----- Array work inside one node --------------------------------------

    /** Shifts the pairs from `at` on one slot to the right and writes the new pair. */
    method MakeRoomInLeaf(at: nat, key: int, value: int)
      requires ArraysFit() && at <= keyCount <= MAX_KEYS
      modifies `keyCount, keys, values
      ensures keyCount == old(keyCount) + 1
      ensures keys[..keyCount] == InsertAt(old(keys[..keyCount]), at, key)
      ensures values[..keyCount] == InsertAt(old(values[..keyCount]), at, value)
    {
      ShiftPairs(at);
      keys[at] := key;
      values[at] := value;
      keyCount := keyCount + 1;
      Shifted(old(keys[..keyCount]), at, key, keys[..keyCount]);
      Shifted(old(values[..keyCount]), at, value, values[..keyCount]);
    }

    method ShiftPairs(at: nat)
      requires ArraysFit() && at <= keyCount <= MAX_KEYS
      modifies keys, values
      ensures forall j :: 0 <= j < at ==> keys[j] == old(keys[j]) && values[j] == old(values[j])
      ensures forall j :: at < j <= keyCount ==> keys[j] == old(keys[j - 1]) && values[j] == old(values[j - 1])
    {
      var index := keyCount;
      while index > at
        invariant at <= index <= keyCount
        invariant forall j :: 0 <= j < index ==> keys[j] == old(keys[j]) && values[j] == old(values[j])
        invariant forall j :: index < j <= keyCount ==> keys[j] == old(keys[j - 1]) && values[j] == old(values[j - 1])
      {
        keys[index] := keys[index - 1];
        values[index] := values[index - 1];
        index := index - 1;
      }
    }

    /** Moves the larger half of an overfull leaf to a new leaf and links it into the chain. */
    method CutLeaf(right: Node)
      requires ArraysFit() && right.ArraysFit() && right != this
      requires right.keys != keys && right.values != values && right.keys != values && right.values != keys
      requires keyCount == MAX_KEYS + 1
      modifies `keyCount, `next, right`keyCount, right`next, right.keys, right.values
      ensures keyCount == 2 && right.keyCount == 2
      ensures keys[..2] == old(keys[..2]) && values[..2] == old(values[..2])
      ensures right.keys[..2] == old(keys[2..4]) && right.values[..2] == old(values[2..4])
      ensures next == right && right.next == old(next)
    {
      var splitIndex := keyCount / 2;
      right.keyCount := keyCount - splitIndex;
      var index := 0;
      while index < right.keyCount
        invariant 0 <= index <= right.keyCount == 2 && keyCount == old(keyCount) && next == old(next)
        invariant keys[..] == old(keys[..]) && values[..] == old(values[..])
        invariant right.keys[..index] == keys[2..2 + index]
        invariant right.values[..index] == values[2..2 + index]
      {
        right.keys[index] := keys[splitIndex + index];
        right.values[index] := values[splitIndex + index];
        index := index + 1;
      }
      keyCount := splitIndex;
      right.next := next;
      next := right;
    }

    /** Makes room for a promoted key and the new child to the right of child `at`. */
    method MakeRoomInBranch(at: nat, promoted: int, rightKid: Node, ghost kids: seq<Node>)
      requires ArraysFit() && at <= keyCount <= MAX_KEYS && HoldsKids(kids)
      modifies `keyCount, keys, children
      ensures keyCount == old(keyCount) + 1
      ensures keys[..keyCount] == InsertAt(old(keys[..keyCount]), at, promoted)
      ensures HoldsKids(InsertAt(kids, at + 1, rightKid))
    {
      ShiftKeys(at);
      ShiftChildren(at + 1);
      keys[at] := promoted;
      children[at + 1] := rightKid;
      keyCount := keyCount + 1;
      Shifted(old(keys[..keyCount]), at, promoted, keys[..keyCount]);
    }

    method ShiftKeys(at: nat)
      requires ArraysFit() && at <= keyCount <= MAX_KEYS
      modifies keys
      ensures forall j :: 0 <= j <= at && j < keyCount ==> keys[j] == old(keys[j])
      ensures forall j :: at < j <= keyCount ==> keys[j] == old(keys[j - 1])
    {
      var index := keyCount;
      while index > at
        invariant at <= index <= keyCount
        invariant forall j :: 0 <= j <= index && j < keyCount ==> keys[j] == old(keys[j])
        invariant forall j :: index < j <= keyCount ==> keys[j] == old(keys[j - 1])
      {
        keys[index] := keys[index - 1];
        index := index - 1;
      }
    }

    method ShiftChildren(at: nat)
      requires ArraysFit() && 1 <= at <= keyCount + 1 <= MAX_KEYS + 1
      modifies children
      ensures forall j :: 0 <= j < at ==> children[j] == old(children[j])
      ensures forall j :: at < j <= keyCount + 1 ==> children[j] == old(children[j - 1])
    {
      var index := keyCount + 1;
      while index > at
        invariant at <= index <= keyCount + 1
        invariant forall j :: 0 <= j <= index && j <= keyCount ==> children[j] == old(children[j])
        invariant forall j :: index < j <= keyCount + 1 ==> children[j] == old(children[j - 1])
      {
        children[index] := children[index - 1];
        index := index - 1;
      }
    }

    /** Moves the keys and children right of the middle key of an overfull branch to a new node. */
    method CutBranch(right: Node, ghost kids: seq<Node>) returns (promoted: int)
      requires ArraysFit() && right.ArraysFit() && right != this
      requires right.keys != keys && right.children != children && right.keys != values && right.values != keys
      requires keyCount == MAX_KEYS + 1 && HoldsKids(kids)
      modifies `keyCount, right`keyCount, right.keys, right.children
      ensures keyCount == 2 && right.keyCount == 1
      ensures promoted == old(keys[..4])[2]
      ensures keys[..2] == old(keys[..4])[..2] && right.keys[..1] == old(keys[..4])[3..]
      ensures HoldsKids(kids[..3]) && right.HoldsKids(kids[3..])
    {
      var midIndex := keyCount / 2;
      promoted := keys[midIndex];
      right.keyCount := keyCount - midIndex - 1;
      var index := 0;
      while index < right.keyCount
        invariant 0 <= index <= right.keyCount == 1
        invariant right.keys[..index] == keys[3..3 + index]
      {
        right.keys[index] := keys[midIndex + 1 + index];
        index := index + 1;
      }
      index := 0;
      while index <= right.keyCount
        invariant 0 <= index <= right.keyCount + 1 == 2
        invariant right.keys[..1] == keys[3..4]
        invariant forall j :: 0 <= j < index ==> right.children[j] == children[3 + j]
      {
        right.children[index] := children[midIndex + 1 + index];
        index := index + 1;
      }
      keyCount := midIndex;
    }

    // ----- Insertion -------------------------------------------------------

    /** `calloc`: fails exactly when the budget of successful allocations is used up. */
    static method CreateNode(leaf: bool, budget: nat) returns (node: Node?, left: nat)
      ensures node == null <==> budget == 0
      ensures node == null ==> left == 0
      ensures node != null ==>
        && left == budget - 1 && fresh(node.Own())
        && node.ArraysFit() && node.isLeaf == leaf && node.keyCount == 0 && node.next == null
    {
      if budget == 0 {
        return null, 0;
      }
      node := new Node(leaf);
      left := budget - 1;
    }

    /**
      The leaf chain of `region` after an insertion: unchanged, or one new leaf
      `added` linked in behind leaf `at`.
    */
    static twostate predicate ChainGrew(region: set<object>, was: seq<Node>, new now: seq<Node>,
                                        at: nat, new added: Node?)
      reads region, added
    {
      if added == null then
        && now == was
        && forall m: Node :: m in region ==> m.next == old(m.next)
      else
        && at < |was| && was[at] in region && added !in region
        && now == InsertAt(was, at + 1, added)
        && added.next == old(was[at].next)
        && was[at].next == added
        && forall m: Node :: m in region && m != was[at] ==> m.next == old(m.next)
    }

    /** `n`, and after a split the new right node too, represent the one or two subtrees of `o`. */
    static ghost predicate Carries(n: Node, o: Outcome, state: InsertState)
      reads n, n.repr
      reads if state.SplitInto? then {state.rightNode} else {}
      reads if state.SplitInto? then state.rightNode.repr else {}
    {
      n.Valid() &&
      match o
      case Duplicate => false
      case Stored(tree) => state == Absorbed && n.model == tree
      case Split(left, sep, right) =>
        && state.SplitInto? && state.promotedKey == sep && n.model == left
        && state.rightNode.Valid() && state.rightNode.model == right && n.repr !! state.rightNode.repr
    }

    static ghost function OwnedBy(n: Node, state: InsertState): set<object>
      reads n
      reads if state.SplitInto? then {state.rightNode} else {}
    {
      if state.SplitInto? then n.repr + state.rightNode.repr else n.repr
    }

    /** The right node of a split with its arrays. */
    static ghost function NewNode(state: InsertState): set<object> {
      if state.SplitInto? then state.rightNode.Own() else {}
    }

    static ghost function LeavesOf(n: Node, state: InsertState): seq<Node>
      reads n
      reads if state.SplitInto? then {state.rightNode} else {}
    {
      if state.SplitInto? then n.leaves + state.rightNode.leaves else n.leaves
    }

    /** A successful insertion with outcome `o` below `n`, which owned `region` and the leaves `was`. */
    static twostate predicate Grew(n: Node, region: set<object>, was: seq<Node>, o: Outcome,
                                   new state: InsertState, at: nat, new added: Node?)
      reads n, n.repr, region, added
      reads if state.SplitInto? then {state.rightNode} else {}
      reads if state.SplitInto? then state.rightNode.repr else {}
    {
      && Carries(n, o, state)
      && fresh(OwnedBy(n, state) - region) && (added != null ==> fresh(added))
      && ChainGrew(region, was, LeavesOf(n, state), at, added)
    }

    /** Records which pairs the arrays of a leaf now hold. */
    ghost method BecomeLeaf()
      requires ArraysFit() && isLeaf && keyCount <= MAX_KEYS && repr == Own() && leaves == [this]
      modifies `model
      ensures Valid() && model == Leaf(keys[..keyCount], values[..keyCount])
    {
      model := Leaf(keys[..keyCount], values[..keyCount]);
    }

    /** Splits a leaf that holds four pairs into 2 + 2. */
    method SplitLeaf(budget: nat) returns (state: InsertState, left: nat)
      requires ArraysFit() && isLeaf && keyCount == MAX_KEYS + 1 && repr == Own() && leaves == [this]
      modifies this, keys, values
      ensures budget == 0 ==> state.Failed? && state.message != DUPLICATE && left == 0
      ensures budget > 0 ==>
        && left == budget - 1 && Carries(this, LeafOutcome(old(keys[..4]), old(values[..4])), state)
        && repr == old(repr) && state.SplitInto? && fresh(state.rightNode.repr) && fresh(state.rightNode)
        && leaves == old(leaves) && state.rightNode.leaves == [state.rightNode]
        && state.rightNode.next == old(next) && next == state.rightNode
    {
      var right;
      right, left := CreateNode(true, budget);
      if right == null {
        return Failed("out of memory while splitting B+ tree leaf"), 0;
      }
      CutLeaf(right);
      right.leaves, right.repr := [right], right.Own();
      BecomeLeaf();
      right.BecomeLeaf();
      state := SplitInto(right.keys[0], right);
    }

    method FindInsertIndex(key: int) returns (index: nat)
      requires ArraysFit() && keyCount <= MAX_KEYS
      ensures index == LowerBound(keys[..keyCount], key)
    {
      index := 0;
      while index < keyCount && keys[index] < key
        invariant index <= keyCount
        invariant forall j :: 0 <= j < index ==> keys[j] < key
      {
        index := index + 1;
      }
    }

    method InsertIntoLeaf(key: int, value: int, budget: nat)
      returns (state: InsertState, left: nat, ghost at: nat, ghost added: Node?)
      requires Valid() && isLeaf
      modifies this, keys, values
      ensures var o := Put(old(model), key, value);
        if o.Duplicate? then
          state == Failed(DUPLICATE) && left == budget && unchanged(this, keys, values)
        else if budget < Needs(old(model), key, value) then
          state.Failed? && state.message != DUPLICATE && left == 0
        else
          && left == budget - Needs(old(model), key, value)
          && Grew(this, old(repr), old(leaves), o, state, at, added)
    {
      hide LowerBound, Put, Needs, LeafOutcome, InsertAt, Flatten, Node.KidsValid;
      at, added := 0, null;
      assert Represents();
      PutInLeaf(keys[..keyCount], values[..keyCount], key, value);
      var insertIndex := FindInsertIndex(key);
      if insertIndex < keyCount && keys[insertIndex] == key {
        return Failed(DUPLICATE), budget, 0, null;
      }
      MakeRoomInLeaf(insertIndex, key, value);
      if keyCount <= MAX_KEYS {
        BecomeLeaf();
        return Absorbed, budget, 0, null;
      }
      state, left := SplitLeaf(budget);
      if state.SplitInto? {
        added := state.rightNode;
        PairAt(this, state.rightNode);
      }
    }

    static lemma PairAt(n: Node, added: Node?)
      ensures InsertAt([n], 1, added) == [n] + [added]
    {
    }

    // ----- Branches --------------------------------------------------------

    static ghost function Foot(kids: seq<Node>): set<object>
      reads kids
    {
      set i, o | 0 <= i < |kids| && o in kids[i].repr :: o
    }

    /** Part of a family, over exactly the objects that part owns. */
    static lemma FamilyPart(f: Family, part: Family, at: nat)
      requires KidsValid(f)
      requires |part.kids| == |part.trees| == |part.leaves| && at + |part.kids| <= |f.kids|
      requires part.region == Foot(part.kids)
      requires forall i :: 0 <= i < |part.kids| ==>
        part.kids[i] == f.kids[at + i] && part.trees[i] == f.trees[at + i] && part.leaves[i] == f.leaves[at + i]
      ensures KidsValid(part) && part.region <= f.region
    {
    }

    static lemma FootsDisjoint(f: Family, m: nat)
      requires KidsValid(f) && m <= |f.kids|
      ensures Foot(f.kids[..m]) !! Foot(f.kids[m..])
    {
    }

    /** An overfull family in two parts that own disjoint objects. */
    static lemma Halves(f: Family) returns (low: Family, high: Family)
      requires KidsValid(f) && |f.kids| == MAX_KEYS + 2
      ensures KidsValid(low) && low == Family(f.kids[..3], f.trees[..3], f.leaves[..3], low.region)
      ensures KidsValid(high) && high == Family(f.kids[3..], f.trees[3..], f.leaves[3..], high.region)
      ensures low.region !! high.region && low.region <= f.region && high.region <= f.region
    {
      low := Family(f.kids[..3], f.trees[..3], f.leaves[..3], Foot(f.kids[..3]));
      high := Family(f.kids[3..], f.trees[3..], f.leaves[3..], Foot(f.kids[3..]));
      FootsDisjoint(f, 3);
      FamilyPart(f, low, 0);
      FamilyPart(f, high, 3);
    }

    /** The family after an insertion below child `c` that touched nothing outside it. */
    static ghost function Updated(f: Family, c: nat): Family
      requires |f.kids| == |f.trees| == |f.leaves| && c < |f.kids|
      reads f.kids[c]
    {
      var kid := f.kids[c];
      Family(f.kids, f.trees[c := kid.model], f.leaves[c := kid.leaves], f.region + kid.repr)
    }

    static twostate lemma FamilyAfterInsert(f: Family, new c: nat)
      requires old(KidsValid(f)) && c < |f.kids|
      requires unchanged(f.region - old(f.kids[c].repr))
      requires f.kids[c].Valid() && fresh(f.kids[c].repr - old(f.kids[c].repr))
      ensures KidsValid(Updated(f, c))
      ensures forall i :: 0 <= i < |f.kids| && i != c ==>
        f.kids[i].repr == old(f.kids[i].repr) && f.kids[i].repr !! old(f.kids[c].repr)
    {
      var f' := Updated(f, c);
      assert old(KidValid(f.kids[c], f.trees[c], f.leaves[c], f.region));
      forall i | 0 <= i < |f.kids|
        ensures KidValid(f'.kids[i], f'.trees[i], f'.leaves[i], f'.region)
        ensures i != c ==> f.kids[i].repr == old(f.kids[i].repr) && f.kids[i].repr !! old(f.kids[c].repr)
      {
        if i != c {
          assert old(KidValid(f.kids[i], f.trees[i], f.leaves[i], f.region));
          assert old(f.kids[i].repr) !! old(f.kids[c].repr);
        }
      }
      forall i, j | 0 <= i < j < |f.kids| ensures f.kids[i].repr !! f.kids[j].repr {
        assert old(f.kids[i].repr) !! old(f.kids[j].repr);
        assert old(KidValid(f.kids[i], f.trees[i], f.leaves[i], f.region));
        assert old(KidValid(f.kids[j], f.trees[j], f.leaves[j], f.region));
      }
    }

    /** The family with one more child at position `at`. */
    static ghost function WithKid(f: Family, at: nat, kid: Node): Family
      requires |f.kids| == |f.trees| == |f.leaves| && at <= |f.kids|
      reads kid
    {
      Family(InsertAt(f.kids, at, kid), InsertAt(f.trees, at, kid.model), InsertAt(f.leaves, at, kid.leaves), f.region)
    }

    static lemma FamilyWithKid(f: Family, at: nat, kid: Node)
      requires KidsValid(f) && at <= |f.kids|
      requires KidValid(kid, kid.model, kid.leaves, f.region)
      requires forall i :: 0 <= i < |f.kids| ==> f.kids[i].repr !! kid.repr
      ensures KidsValid(WithKid(f, at, kid))
    {
    }

    /** Records which children, and with them which subtree, the arrays of a branch now hold. */
    ghost method BecomeBranch(f: Family)
      requires ArraysFit() && !isLeaf && keyCount <= MAX_KEYS
      requires HoldsKids(f.kids) && KidsValid(f) && f.region !! Own()
      requires forall i :: 0 <= i < |f.trees| ==> Shaped(f.trees[i])
      modifies `model, `repr, `family, `leaves
      ensures Valid() && model == Branch(keys[..keyCount], f.trees)
      ensures repr == Own() + f.region && leaves == Flatten(f.leaves)
    {
      model, family, leaves, repr := Branch(keys[..keyCount], f.trees), f, Flatten(f.leaves), Own() + f.region;
      assert repr - Own() == f.region;
    }

    ghost method BecomeTwo(right: Node, low: Family, high: Family)
      requires ArraysFit() && !isLeaf && keyCount <= MAX_KEYS
      requires right.ArraysFit() && !right.isLeaf && right.keyCount <= MAX_KEYS
      requires HoldsKids(low.kids) && KidsValid(low) && right.HoldsKids(high.kids) && KidsValid(high)
      requires low.region !! Own() !! right.Own() !! high.region
      requires forall i :: 0 <= i < |low.trees| ==> Shaped(low.trees[i])
      requires forall i :: 0 <= i < |high.trees| ==> Shaped(high.trees[i])
      modifies `model, `repr, `family, `leaves, right`model, right`repr, right`family, right`leaves
      ensures Valid() && model == Branch(keys[..keyCount], low.trees)
      ensures right.Valid() && right.model == Branch(right.keys[..right.keyCount], high.trees)
      ensures repr == Own() + low.region && leaves == Flatten(low.leaves)
      ensures right.repr == right.Own() + high.region && right.leaves == Flatten(high.leaves)
    {
      BecomeBranch(low);
      right.BecomeBranch(high);
    }

    /** Cuts an overfull branch in two valid nodes: keys 0-1 stay, key 2 is promoted, key 3 goes to `right`. */
    method MoveUpperHalf(right: Node, ghost f: Family) returns (promoted: int)
      requires ArraysFit() && !isLeaf && keyCount == MAX_KEYS + 1
      requires HoldsKids(f.kids) && KidsValid(f) && f.region !! Own()
      requires forall i :: 0 <= i < |f.trees| ==> Shaped(f.trees[i])
      requires right.ArraysFit() && !right.isLeaf && right.Own() !! Own() && right.Own() !! f.region
      modifies `keyCount, `model, `repr, `family, `leaves, right, right.keys, right.children
      ensures promoted == old(keys[..4])[2]
      ensures Valid() && model == Branch(old(keys[..4])[..2], f.trees[..3]) && leaves == Flatten(f.leaves[..3])
      ensures right.Valid() && right.model == Branch(old(keys[..4])[3..], f.trees[3..])
      ensures right.leaves == Flatten(f.leaves[3..])
      ensures repr <= Own() + f.region && right.repr <= right.Own() + f.region && repr !! right.repr
    {
      ghost var low, high := Halves(f);
      promoted := CutBranch(right, f.kids);
      BecomeTwo(right, low, high);
      Apart(Own(), right.Own(), low.region, high.region, f.region);
    }

    /** Splits a branch that holds four keys: two keys stay, one moves up, one goes right. */
    method SplitBranch(budget: nat, ghost f: Family) returns (state: InsertState, left: nat)
      requires ArraysFit() && !isLeaf && keyCount == MAX_KEYS + 1
      requires HoldsKids(f.kids) && KidsValid(f) && f.region !! Own()
      requires forall i :: 0 <= i < |f.trees| ==> Shaped(f.trees[i])
      modifies `keyCount, `model, `repr, `family, `leaves
      ensures budget == 0 ==> state.Failed? && state.message != DUPLICATE && left == 0
      ensures budget > 0 ==>
        && left == budget - 1 && Carries(this, BranchOutcome(old(keys[..4]), f.trees), state)
        && fresh(NewNode(state)) && OwnedBy(this, state) <= Own() + f.region + NewNode(state)
        && LeavesOf(this, state) == Flatten(f.leaves)
    {
      hide Flatten, Node.KidValid, Shaped, LowerBound;
      var right;
      right, left := CreateNode(false, budget);
      if right == null {
        return Failed("out of memory while splitting B+ tree internal node"), 0;
      }
      var promoted := MoveUpperHalf(right, f);
      FlattenHalves(f.leaves);
      state := SplitInto(promoted, right);
      LeftOver(Own(), right.Own(), repr, right.repr, f.region);
    }

    static lemma FlattenHalves(kidLeaves: seq<seq<Node>>)
      requires |kidLeaves| >= 3
      ensures Flatten(kidLeaves) == Flatten(kidLeaves[..3]) + Flatten(kidLeaves[3..])
    {
      FlattenConcat(kidLeaves[..3], kidLeaves[3..]);
      assert kidLeaves[..3] + kidLeaves[3..] == kidLeaves;
    }

    static lemma FlattenAround(kidLeaves: seq<seq<Node>>, c: nat, now: seq<Node>)
      requires c < |kidLeaves|
      ensures Flatten(kidLeaves) == Flatten(kidLeaves[..c]) + kidLeaves[c] + Flatten(kidLeaves[c + 1..])
      ensures Flatten(kidLeaves[c := now]) == Flatten(kidLeaves[..c]) + now + Flatten(kidLeaves[c + 1..])
    {
      FlattenConcat(kidLeaves[..c], [kidLeaves[c]] + kidLeaves[c + 1..]);
      assert kidLeaves[..c] + ([kidLeaves[c]] + kidLeaves[c + 1..]) == kidLeaves;
      FlattenConcat(kidLeaves[..c], [now] + kidLeaves[c + 1..]);
      assert kidLeaves[..c] + ([now] + kidLeaves[c + 1..]) == kidLeaves[c := now];
    }

    static lemma FlattenAroundTwo(kidLeaves: seq<seq<Node>>, c: nat, low: seq<Node>, high: seq<Node>)
      requires c < |kidLeaves|
      ensures Flatten(kidLeaves) == Flatten(kidLeaves[..c]) + kidLeaves[c] + Flatten(kidLeaves[c + 1..])
      ensures Flatten(InsertAt(kidLeaves[c := low], c + 1, high)) ==
        Flatten(kidLeaves[..c]) + (low + high) + Flatten(kidLeaves[c + 1..])
    {
      FlattenAround(kidLeaves, c, low + high);
      FlattenConcat(kidLeaves[..c], [low] + ([high] + kidLeaves[c + 1..]));
      FlattenConcat([low], [high] + kidLeaves[c + 1..]);
      FlattenConcat([high], kidLeaves[c + 1..]);
      assert kidLeaves[..c] + ([low] + ([high] + kidLeaves[c + 1..])) == InsertAt(kidLeaves[c := low], c + 1, high);
    }

    method InsertIntoNode(key: int, value: int, budget: nat)
      returns (state: InsertState, left: nat, ghost at: nat, ghost added: Node?)
      requires Valid()
      modifies repr
      decreases model, 2
      ensures var o := Put(old(model), key, value);
        if o.Duplicate? then
          state == Failed(DUPLICATE) && left == budget && unchanged(old(repr))
        else if budget < Needs(old(model), key, value) then
          state.Failed? && state.message != DUPLICATE && left == 0
        else
          && left == budget - Needs(old(model), key, value)
          && Grew(this, old(repr), old(leaves), o, state, at, added)
    {
      if isLeaf {
        state, left, at, added := InsertIntoLeaf(key, value, budget);
      } else {
        state, left, at, added := InsertIntoInternal(key, value, budget);
      }
    }

    /** What a branch with these keys makes of a child's report. */
    static ghost function Combined(keys: seq<int>, trees: seq<Tree>, c: nat, childState: InsertState): Outcome
      requires |trees| == |keys| + 1 && c <= |keys|
      reads if childState.SplitInto? then {childState.rightNode} else {}
    {
      if childState.SplitInto? then
        BranchOutcome(InsertAt(keys, c, childState.promotedKey), InsertAt(trees, c + 1, childState.rightNode.model))
      else
        Stored(Branch(keys, trees))
    }

    /** The leaves of a branch once child `c` has taken in its insertion. */
    static ghost function LeavesNow(f: Family, c: nat, childState: InsertState): seq<Node>
      requires c < |f.leaves|
      reads if childState.SplitInto? then {childState.rightNode} else {}
    {
      Flatten(if childState.SplitInto? then InsertAt(f.leaves, c + 1, childState.rightNode.leaves) else f.leaves)
    }

    /** The arrays hold the children of `f`; a right half handed up by child `c` is not yet among them. */
    ghost predicate ReadyToAbsorb(c: nat, childState: InsertState, f: Family)
      reads this, keys, values, children, f.region, f.kids
      reads if childState.SplitInto? then {childState.rightNode} else {}
      reads if childState.SplitInto? then childState.rightNode.repr else {}
    {
      && ArraysFit() && !isLeaf && keyCount <= MAX_KEYS && c <= keyCount && !childState.Failed?
      && HoldsKids(f.kids) && KidsValid(f) && f.region !! Own()
      && (forall i :: 0 <= i < |f.trees| ==> Shaped(f.trees[i]))
      && (childState.SplitInto? ==> Disjoint(f, childState.rightNode))
    }

    static ghost predicate Disjoint(f: Family, kid: Node)
      reads f.region, f.kids, kid, kid.repr
    {
      && KidValid(kid, kid.model, kid.leaves, f.region)
      && forall i :: 0 <= i < |f.kids| ==> f.kids[i].repr !! kid.repr
    }

    /** Takes in the right half of a child that was split, splitting this branch in turn if it overflows. */
    method AbsorbSplit(c: nat, promoted: int, rightKid: Node, budget: nat, ghost f: Family)
      returns (state: InsertState, left: nat)
      requires ReadyToAbsorb(c, SplitInto(promoted, rightKid), f)
      modifies `keyCount, `model, `repr, `family, `leaves, keys, children
      ensures
        var o := old(Combined(keys[..keyCount], f.trees, c, SplitInto(promoted, rightKid)));
        if o.Split? && budget == 0 then
          state.Failed? && state.message != DUPLICATE && left == 0
        else
          && left == (if o.Split? then budget - 1 else budget)
          && Carries(this, o, state) && fresh(NewNode(state))
          && OwnedBy(this, state) <= Own() + f.region + NewNode(state)
          && LeavesOf(this, state) == old(LeavesNow(f, c, SplitInto(promoted, rightKid)))
    {
      hide InsertAt, Flatten, Shaped, LowerBound;
      ghost var f' := WithKid(f, c + 1, rightKid);
      assert KidsValid(f') by {
        FamilyWithKid(f, c + 1, rightKid);
      }
      assert forall i :: 0 <= i < |f'.trees| ==> Shaped(f'.trees[i]);
      MakeRoomInBranch(c, promoted, rightKid, f.kids);
      if keyCount <= MAX_KEYS {
        BecomeBranch(f');
        return Absorbed, budget;
      }
      state, left := SplitBranch(budget, f');
    }

    method Absorb(c: nat, childState: InsertState, budget: nat, ghost f: Family)
      returns (state: InsertState, left: nat)
      requires ReadyToAbsorb(c, childState, f)
      modifies `keyCount, `model, `repr, `family, `leaves, keys, children
      ensures
        var o := old(Combined(keys[..keyCount], f.trees, c, childState));
        if o.Split? && budget == 0 then
          state.Failed? && state.message != DUPLICATE && left == 0
        else
          && left == (if o.Split? then budget - 1 else budget)
          && Carries(this, o, state) && fresh(NewNode(state))
          && OwnedBy(this, state) <= Own() + f.region + NewNode(state)
          && LeavesOf(this, state) == old(LeavesNow(f, c, childState))
    {
      if childState.Absorbed? {
        BecomeBranch(f);
        state, left := Absorbed, budget;
      } else {
        state, left := AbsorbSplit(c, childState.promotedKey, childState.rightNode, budget, f);
      }
    }

    /** The family together with objects that its children do not own. */
    static ghost function Widened(f: Family, more: set<object>): Family {
      f.(region := f.region + more)
    }

    static lemma WidenedValid(f: Family, more: set<object>)
      requires KidsValid(f)
      ensures KidsValid(Widened(f, more))
    {
    }

    /** The family once child `c` has taken in its insertion. */
    static ghost function AfterChild(f: Family, c: nat, childState: InsertState): Family
      requires |f.kids| == |f.trees| == |f.leaves| && c < |f.kids|
      reads f.kids[c]
      reads if childState.SplitInto? then {childState.rightNode} else {}
    {
      if childState.SplitInto? then Widened(Updated(f, c), childState.rightNode.repr) else Updated(f, c)
    }

    static lemma LeavesAfterChild(f: Family, c: nat, childState: InsertState)
      requires |f.kids| == |f.trees| == |f.leaves| && c < |f.kids|
      ensures Flatten(f.leaves) == Flatten(f.leaves[..c]) + f.leaves[c] + Flatten(f.leaves[c + 1..])
      ensures LeavesNow(AfterChild(f, c, childState), c, childState) ==
        Flatten(f.leaves[..c]) + LeavesOf(f.kids[c], childState) + Flatten(f.leaves[c + 1..])
    {
      FlattenAround(f.leaves, c, f.kids[c].leaves);
      if childState.SplitInto? {
        FlattenAroundTwo(f.leaves, c, f.kids[c].leaves, childState.rightNode.leaves);
      }
    }

    static twostate lemma FamilyAfterChild(f: Family, new c: nat, new o: Outcome, new childState: InsertState)
      requires old(KidsValid(f)) && c < |f.kids|
      requires unchanged(f.region - old(f.kids[c].repr))
      requires Carries(f.kids[c], o, childState)
      requires fresh(OwnedBy(f.kids[c], childState) - old(f.kids[c].repr))
      ensures var f' := AfterChild(f, c, childState);
        && KidsValid(f') && fresh(f'.region - f.region)
        && (childState.SplitInto? ==> Disjoint(f', childState.rightNode))
    {
      FamilyAfterInsert(f, c);
      if childState.SplitInto? {
        assert old(KidValid(f.kids[c], f.trees[c], f.leaves[c], f.region));
        WidenedValid(Updated(f, c), childState.rightNode.repr);
        forall i | 0 <= i < |f.kids| ensures f.kids[i].repr !! childState.rightNode.repr {
          if i != c {
            assert old(KidValid(f.kids[i], f.trees[i], f.leaves[i], f.region));
          }
        }
      }
    }

    /** A change of the chain below one child is the same change of the whole chain. */
    static twostate lemma ChainLifts(s: Share, new now: seq<Node>, new at: nat, new added: Node?)
      requires ChainGrew(s.inner, s.was, now, at, added) && s.inner <= s.region
      requires unchanged(s.region - s.inner)
      requires added != null ==> fresh(added)
      ensures ChainGrew(s.region, s.before + s.was + s.after, s.before + now + s.after, |s.before| + at, added)
    {
      if added != null {
        assert (s.before + s.was + s.after)[|s.before| + at] == s.was[at];
        assert s.before + now + s.after == InsertAt(s.before + s.was + s.after, |s.before| + at + 1, added);
      }
    }

    /** How many leaves lie before child `c`. */
    static ghost function LeavesBefore(f: Family, c: nat): nat
      requires c < |f.leaves|
    {
      |Flatten(f.leaves[..c])|
    }

    static twostate lemma ChainAfterChild(p: Place, new c: nat, new childState: InsertState,
                                          new at: nat, new added: Node?)
      requires |p.family.kids| == |p.family.trees| == |p.family.leaves| && c < |p.family.kids|
      requires var inner := old(p.family.kids[c].repr); inner <= p.region && unchanged(p.region - inner)
      requires
        ChainGrew(old(p.family.kids[c].repr), p.family.leaves[c], LeavesOf(p.family.kids[c], childState), at, added)
      requires added != null ==> fresh(added)
      ensures var f' := AfterChild(p.family, c, childState);
        ChainGrew(p.region, Flatten(p.family.leaves), LeavesNow(f', c, childState),
                  LeavesBefore(p.family, c) + at, added)
    {
      hide Flatten, InsertAt, Node.LeavesNow, Node.ChainGrew, Node.AfterChild;
      var f := p.family;
      var s := Share(p.region, old(f.kids[c].repr), Flatten(f.leaves[..c]), f.leaves[c], Flatten(f.leaves[c + 1..]));
      LeavesAfterChild(f, c, childState);
      ChainLifts(s, LeavesOf(f.kids[c], childState), at, added);
    }

    static lemma CombinedIsPut(t: Tree, key: int, value: int, kid: Node, childState: InsertState)
      requires t.Branch? && Shaped(t)
      requires Carries(kid, Put(t.kids[ChildIndex(t.keys, key)], key, value), childState)
      ensures var c := ChildIndex(t.keys, key);
        Combined(t.keys, t.kids[c := kid.model], c, childState) == Put(t, key, value)
    {
    }

    /** The descent of an internal insertion: only objects below the chosen child, and new ones, are touched. */
    method InsertIntoChild(key: int, value: int, budget: nat)
      returns (childState: InsertState, left: nat, c: nat, ghost f: Family, ghost at: nat, ghost added: Node?)
      requires Valid() && !isLeaf && model.Branch?
      modifies family.region
      decreases model, 0
      ensures c == ChildIndex(old(model).keys, key)
      ensures unchanged(this, keys, values, children)
      ensures var tree := old(model).kids[c];
        var o := Put(tree, key, value);
        if o.Duplicate? then
          childState == Failed(DUPLICATE) && left == budget && unchanged(old(repr))
        else if budget < Needs(tree, key, value) then
          childState.Failed? && childState.message != DUPLICATE && left == 0
        else
          && left == budget - Needs(tree, key, value) && !childState.Failed?
          && |f.trees| == |f.kids| == |f.leaves| == |old(model).kids| && ReadyToAbsorb(c, childState, f)
          && fresh(f.region - old(family.region)) && (added != null ==> fresh(added))
          && Combined(old(model).keys, f.trees, c, childState) == Put(old(model), key, value)
          && ChainGrew(old(repr), old(leaves), LeavesNow(f, c, childState), at, added)
    {
      hide BranchOutcome, LeafOutcome, InsertAt, LowerBound, Flatten, Node.Disjoint;
      ghost var f0 := family;
      f := f0;
      assert KidsValid(f0);
      c := FindChildIndex(key);
      var child := children[c];
      assert KidValid(f0.kids[c], f0.trees[c], f0.leaves[c], f0.region);
      ghost var p := Place(repr, f0);
      assert child.repr <= repr;
      ghost var innerAt;
      childState, left, innerAt, added := child.InsertIntoNode(key, value, budget);
      at := LeavesBefore(f0, c) + innerAt;
      if !childState.Failed? {
        FamilyAfterChild(f0, c, Put(f0.trees[c], key, value), childState);
        ChainAfterChild(p, c, childState, innerAt, added);
        f := AfterChild(f0, c, childState);
        CombinedIsPut(model, key, value, child, childState);
      }
    }

    method InsertIntoInternal(key: int, value: int, budget: nat)
      returns (state: InsertState, left: nat, ghost at: nat, ghost added: Node?)
      requires Valid() && !isLeaf
      modifies repr
      decreases model, 1
      ensures var o := Put(old(model), key, value);
        if o.Duplicate? then
          state == Failed(DUPLICATE) && left == budget && unchanged(old(repr))
        else if budget < Needs(old(model), key, value) then
          state.Failed? && state.message != DUPLICATE && left == 0
        else
          && left == budget - Needs(old(model), key, value)
          && Grew(this, old(repr), old(leaves), o, state, at, added)
    {
      hide InsertAt, LowerBound, Flatten, Node.ReadyToAbsorb, Node.KidsValid;
      var c;
      ghost var f;
      state, left, c, f, at, added := InsertIntoChild(key, value, budget);
      if !state.Failed? {
        state, left := Absorb(c, state, left, f);
      }
    }
  }

  lemma Apart(a: set<object>, b: set<object>, low: set<object>, high: set<object>, region: set<object>)
    requires low !! a !! b !! high && low <= region && high <= region
    ensures a + low !! b + high && a + low <= a + region && b + high <= b + region
  {
  }

  lemma LeftOver(a: set<object>, b: set<object>, p: set<object>, q: set<object>, region: set<object>)
    requires p <= a + region && q <= b + region
    ensures p + q <= a + region + b
  {
  }

  lemma Shifted<T>(s: seq<T>, at: nat, x: T, shifted: seq<T>)
    requires at <= |s| && |shifted| == |s| + 1 && shifted[at] == x
    requires forall j :: 0 <= j < at ==> shifted[j] == s[j]
    requires forall j :: at < j < |shifted| ==> shifted[j] == s[j - 1]
    ensures shifted == InsertAt(s, at, x)
  {
  }

  lemma InsertAtIndex<T>(s: seq<T>, at: nat, x: T)
    requires at <= |s|
    ensures |InsertAt(s, at, x)| == |s| + 1
    ensures forall i :: 0 <= i <= |s| ==>
      InsertAt(s, at, x)[i] == if i < at then s[i] else if i == at then x else s[i - 1]
  {
  }

  lemma {:induction false} FlattenConcat(a: seq<seq<Node>>, b: seq<seq<Node>>)
    ensures Flatten(a + b) == Flatten(a) + Flatten(b)
  {
    if a == [] {
      assert a + b == b;
    } else {
      assert (a + b)[1..] == a[1..] + b;
      FlattenConcat(a[1..], b);
    }
  }

  // ----- The leaf chain ------------------------------------------------------

  /** `leaves` in order, each linked to the next, the last one to nothing. */
  ghost predicate Linked(leaves: seq<Node>)
    reads leaves
  {
    Distinct(leaves) && forall i :: 0 <= i < |leaves| ==> leaves[i].next == NextOf(leaves, i)
  }

  ghost predicate Distinct(leaves: seq<Node>) {
    forall i, j :: 0 <= i < j < |leaves| ==> leaves[i] != leaves[j]
  }

  lemma DistinctInsert(leaves: seq<Node>, at: nat, added: Node)
    requires Distinct(leaves) && at <= |leaves| && added !in leaves
    ensures Distinct(InsertAt(leaves, at, added))
  {
  }

  ghost function NextOf(leaves: seq<Node>, i: nat): Node? {
    if i + 1 < |leaves| then leaves[i + 1] else null
  }

  ghost predicate IsLeafOf(leaf: Node, region: set<object>)
    reads region
  {
    leaf in region && leaf.isLeaf && leaf.ArraysFit()
  }

  lemma {:induction false} FlattenIn(lists: seq<seq<Node>>, region: set<object>)
    requires forall i, j :: 0 <= i < |lists| && 0 <= j < |lists[i]| ==> IsLeafOf(lists[i][j], region)
    ensures forall i :: 0 <= i < |Flatten(lists)| ==> IsLeafOf(Flatten(lists)[i], region)
  {
    if lists != [] {
      forall i, j | 0 <= i < |lists[1..]| && 0 <= j < |lists[1..][i]| ensures IsLeafOf(lists[1..][i][j], region) {
        assert lists[1..][i] == lists[i + 1];
      }
      FlattenIn(lists[1..], region);
    }
  }

  /** The leaves of a node are leaves, and are among the objects it owns. */
  lemma {:induction false} LeavesOwned(n: Node)
    requires n.Valid()
    ensures forall i :: 0 <= i < |n.leaves| ==> IsLeafOf(n.leaves[i], n.repr)
    decreases n.model
  {
    assert n.Represents();
    if n.model.Branch? {
      var f := n.family;
      assert Node.KidsValid(f);
      forall i, j | 0 <= i < |f.leaves| && 0 <= j < |f.leaves[i]| ensures IsLeafOf(f.leaves[i][j], n.repr) {
        assert Node.KidValid(f.kids[i], f.trees[i], f.leaves[i], f.region);
        LeavesOwned(f.kids[i]);
      }
      FlattenIn(f.leaves, n.repr);
    }
  }

  /** The nodes met by following `next` at most `steps` times without leaving `region`. */
  ghost function Walk(n: Node?, region: set<object>, steps: nat): seq<Node>
    reads region
    decreases steps
  {
    if n == null || n !in region || steps == 0 then [] else [n] + Walk(n.next, region, steps - 1)
  }

  /** The pairs stored in a list of leaves, read from their arrays. */
  ghost function LeafPairs(leaves: seq<Node>): seq<Entry>
    requires forall i :: 0 <= i < |leaves| ==> leaves[i].ArraysFit()
    reads leaves, set i | 0 <= i < |leaves| :: leaves[i].keys, set i | 0 <= i < |leaves| :: leaves[i].values
  {
    if leaves == [] then []
    else
      var leaf := leaves[0];
      assert leaf.ArraysFit();
      (if leaf.keyCount <= MAX_KEYS then Zip(leaf.keys[..leaf.keyCount], leaf.values[..leaf.keyCount]) else [])
      + LeafPairs(leaves[1..])
  }

  lemma {:induction false} WalkIsChain(leaves: seq<Node>, i: nat, region: set<object>, steps: nat)
    requires Linked(leaves) && i <= |leaves| && steps >= |leaves| - i
    requires forall j :: 0 <= j < |leaves| ==> leaves[j] in region
    ensures Walk(if i < |leaves| then leaves[i] else null, region, steps) == leaves[i..]
    decreases |leaves| - i
  {
    if i < |leaves| {
      WalkIsChain(leaves, i + 1, region, steps - 1);
      assert leaves[i..] == [leaves[i]] + leaves[i + 1..];
    }
  }

  /** The objects and leaves of a subtree before an insertion. */
  datatype Chain = Chain(region: set<object>, leaves: seq<Node>)

  twostate lemma LinkedAfterGrowth(c: Chain, new now: seq<Node>, new at: nat, new added: Node?)
    requires old(Linked(c.leaves)) && Node.ChainGrew(c.region, c.leaves, now, at, added)
    requires forall i :: 0 <= i < |c.leaves| ==> c.leaves[i] in c.region
    requires added != null ==> fresh(added)
    ensures Linked(now)
  {
    if added != null {
      var was := c.leaves;
      InsertAtIndex(was, at + 1, added);
      DistinctInsert(was, at + 1, added);
      forall i | 0 <= i < |now| ensures now[i].next == NextOf(now, i) {
        if i < at {
          assert now[i] == was[i] && was[i].next == old(was[i].next);
        } else if i > at + 1 {
          assert now[i] == was[i - 1] && was[i - 1].next == old(was[i - 1].next);
        }
      }
    }
  }

  lemma {:induction false} LeafPairsConcat(a: seq<Node>, b: seq<Node>)
    requires forall i :: 0 <= i < |a| ==> a[i].ArraysFit()
    requires forall i :: 0 <= i < |b| ==> b[i].ArraysFit()
    ensures LeafPairs(a + b) == LeafPairs(a) + LeafPairs(b)
  {
    if a == [] {
      assert a + b == b;
    } else {
      assert (a + b)[1..] == a[1..] + b;
      LeafPairsConcat(a[1..], b);
    }
  }

  /** The arrays of the leaves, read in chain order, hold exactly the pairs the tree stands for. */
  lemma {:induction false} LeafPairsAreEntries(n: Node)
    requires n.Valid()
    ensures forall i :: 0 <= i < |n.leaves| ==> n.leaves[i].ArraysFit()
    ensures LeafPairs(n.leaves) == Entries(n.model)
    decreases n.model, 0
  {
    assert n.Represents();
    LeavesOwned(n);
    assert forall i :: 0 <= i < |n.leaves| ==> IsLeafOf(n.leaves[i], n.repr);
    if n.model.Branch? {
      FamilyPairs(n.family);
    } else {
      assert LeafPairs([n]) == Zip(n.keys[..n.keyCount], n.values[..n.keyCount]) + LeafPairs([n][1..]);
    }
  }

  lemma {:induction false} FamilyPairs(f: Family)
    requires Node.KidsValid(f)
    requires forall i :: 0 <= i < |f.trees| ==> Shaped(f.trees[i])
    ensures forall i :: 0 <= i < |Flatten(f.leaves)| ==> Flatten(f.leaves)[i].ArraysFit()
    ensures LeafPairs(Flatten(f.leaves)) == AllEntries(f.trees)
    decreases f.trees, 1
  {
    if f.kids != [] {
      var kid := f.kids[0];
      assert Node.KidValid(kid, f.trees[0], f.leaves[0], f.region);
      LeafPairsAreEntries(kid);
      var tail := Family(f.kids[1..], f.trees[1..], f.leaves[1..], f.region);
      forall i | 0 <= i < |tail.kids| ensures Node.KidValid(tail.kids[i], tail.trees[i], tail.leaves[i], tail.region) {
        assert Node.KidValid(f.kids[i + 1], f.trees[i + 1], f.leaves[i + 1], f.region);
      }
      FamilyPairs(tail);
      LeafPairsConcat(f.leaves[0], Flatten(tail.leaves));
    }
  }

  /** The leaf reached by always taking the first child. */
  ghost function Leftmost(n: Node): Node
    requires n.Valid()
    reads n, n.repr
    decreases n.model
  {
    if n.isLeaf then n
    else
      assert n.Represents();
      assert Node.KidsValid(n.family);
      assert Node.KidValid(n.family.kids[0], n.family.trees[0], n.family.leaves[0], n.family.region);
      Leftmost(n.family.kids[0])
  }

  lemma {:induction false} LeftmostIsFirst(n: Node)
    requires n.Valid()
    ensures |n.leaves| > 0 && n.leaves[0] == Leftmost(n)
    decreases n.model
  {
    assert n.Represents();
    if !n.isLeaf {
      var f := n.family;
      assert Node.KidsValid(f);
      assert Node.KidValid(f.kids[0], f.trees[0], f.leaves[0], f.region);
      LeftmostIsFirst(f.kids[0]);
    }
  }

  /**
    From the leftmost leaf, `next` meets every leaf of the tree exactly once, in
    order, and then nothing; the keys met are the sorted keys of the map.
  */
  lemma ChainVisitsEveryLeaf(t: BPlusTree, steps: nat)
    requires t.Valid() && t.sound && t.root != null && steps >= |t.root.leaves|
    ensures Walk(Leftmost(t.root), t.root.repr, steps) == t.root.leaves
    ensures forall i, j :: 0 <= i < j < |t.root.leaves| ==> t.root.leaves[i] != t.root.leaves[j]
    ensures |t.root.leaves| > 0 && t.root.leaves[|t.root.leaves| - 1].next == null
    ensures forall i :: 0 <= i < |t.root.leaves| ==> t.root.leaves[i].ArraysFit()
    ensures LeafPairs(t.root.leaves) == Entries(t.model.value) && Sorted(LeafPairs(t.root.leaves))
  {
    var leaves := t.root.leaves;
    assert forall i :: 0 <= i < |leaves| ==> IsLeafOf(leaves[i], t.root.repr);
    LeftmostIsFirst(t.root);
    WalkIsChain(leaves, 0, t.root.repr, steps);
    LeafPairsAreEntries(t.root);
  }

  // ----- The tree handle -----------------------------------------------------

  class BPlusTree {
    var root: Node?

    /** The tree represented, while `sound`: a failed allocation in the middle of a split loses it. */
    ghost var model: Option<Tree>
    ghost var sound: bool
    ghost var repr: set<object>

    ghost predicate Valid()
      reads this, repr
      ensures Valid() ==> this in repr
    {
      && this in repr
      && (sound ==>
            && IsBPlusTree(model)
            && (root == null <==> model.None?)
            && (root != null ==>
                  && root in repr && root.repr <= repr - {this} && root.model == model.value && Rooted(root)))
    }

    /** The whole tree below a root, its leaf chain included. */
    static ghost predicate Rooted(node: Node)
      reads node, node.repr
    {
      && node.Valid()
      && (forall i :: 0 <= i < |node.leaves| ==> IsLeafOf(node.leaves[i], node.repr))
      && Linked(node.leaves)
    }

    /** `bptree_init`. */
    constructor ()
      ensures Valid() && sound && model == None && fresh(repr)
    {
      root, model, sound, repr := null, None, true, {this};
    }

    /** The first pair of an empty tree. */
    method PlantRoot(key: int, value: int, budget: nat) returns (ok: bool, left: nat)
      requires Valid() && sound && root == null
      modifies this
      ensures Valid() && sound && fresh(repr - old(repr))
      ensures ok == (budget > 0) && left == (if ok then budget - 1 else 0)
      ensures model == if ok then Some(Leaf([key], [value])) else None
    {
      var leaf;
      leaf, left := Node.CreateNode(true, budget);
      if leaf == null {
        return false, 0;
      }
      leaf.keys[0] := key;
      leaf.values[0] := value;
      leaf.keyCount := 1;
      leaf.model, leaf.leaves, leaf.repr := Leaf([key], [value]), [leaf], leaf.Own();
      root, model, repr := leaf, Some(leaf.model), {this} + leaf.repr;
      InsertRefinesMap(None, key, value);
      ok := true;
    }

    /** A new root above the two halves of the old one. */
    method GrowRoot(promoted: int, right: Node, budget: nat, ghost o: Outcome) returns (newRoot: Node?, left: nat)
      requires root != null && Node.Carries(root, o, SplitInto(promoted, right)) && o.Split?
      ensures newRoot == null <==> budget == 0
      ensures newRoot == null ==> left == 0
      ensures newRoot != null ==>
        && left == budget - 1 && newRoot.Valid() && newRoot.model == Branch([o.sep], [o.left, o.right])
        && newRoot.leaves == root.leaves + right.leaves && fresh(newRoot.repr - root.repr - right.repr)
    {
      hide Node.KidsValid, Shaped;
      newRoot, left := Node.CreateNode(false, budget);
      if newRoot == null {
        return;
      }
      newRoot.keys[0] := promoted;
      newRoot.children[0] := root;
      newRoot.children[1] := right;
      newRoot.keyCount := 1;
      ghost var f := Family([root, right], [o.left, o.right], [root.leaves, right.leaves], root.repr + right.repr);
      assert Node.KidValid(root, o.left, root.leaves, f.region);
      assert Node.KidValid(right, o.right, right.leaves, f.region);
      assert newRoot.keys[..1] == [o.sep];
      newRoot.BecomeBranch(f);
      assert Flatten([right.leaves]) == right.leaves + Flatten([right.leaves][1..]);
      assert Flatten(f.leaves) == root.leaves + Flatten(f.leaves[1..]);
    }

    /**
      `bptree_insert`. A duplicate is refused with everything unchanged; otherwise the
      tree becomes the one `InsertRoot` describes, provided its nodes can be allocated.
    */
    method Insert(key: int, value: int, budget: nat) returns (ok: bool, message: string, left: nat)
      requires Valid() && sound
      modifies repr
      ensures Valid() && fresh(repr - old(repr))
      ensures
        var r := InsertRoot(old(model), key, value);
        if r.Rejected? then
          !ok && message == DUPLICATE && left == budget && unchanged(old(repr))
        else if budget < r.cost then
          !ok && message != DUPLICATE && left == 0 && sound == old(model).None? && (sound ==> model == None)
        else
          ok && left == budget - r.cost && sound && model == Some(r.root)
      ensures ok ==> old(key !in Contents(model)) && Contents(model) == old(Contents(model))[key := value]
      ensures !ok && message == DUPLICATE ==> old(key in Contents(model))
    {
      InsertRefinesMap(model, key, value);
      if root == null {
        ok, left := PlantRoot(key, value, budget);
        message := if ok then "" else "out of memory while creating B+ tree root";
      } else {
        ok, message, left := InsertBelowRoot(key, value, budget);
      }
    }

    method InsertBelowRoot(key: int, value: int, budget: nat) returns (ok: bool, message: string, left: nat)
      requires Valid() && sound && root != null
      modifies repr
      ensures Valid() && fresh(repr - old(repr))
      ensures
        var r := InsertRoot(old(model), key, value);
        if r.Rejected? then
          !ok && message == DUPLICATE && left == budget && unchanged(old(repr))
        else if budget < r.cost then
          !ok && message != DUPLICATE && left == 0 && !sound
        else
          ok && left == budget - r.cost && sound && model == Some(r.root)
    {
      InsertRefinesMap(model, key, value);
      ghost var o := Put(root.model, key, value);
      ghost var c := Chain(root.repr, root.leaves);
      var state;
      ghost var at, added;
      state, left, at, added := root.InsertIntoNode(key, value, budget);
      if state.Failed? {
        if !o.Duplicate? {
          sound := false;
        }
        return false, state.message, left;
      }
      LinkedAfterGrowth(c, Node.LeavesOf(root, state), at, added);
      ok, message, left := TakeRoot(state, left, o);
    }

    /** Keeps the root after an insertion below it, or grows a new one above its two halves. */
    method TakeRoot(state: InsertState, budget: nat, ghost o: Outcome) returns (ok: bool, message: string, left: nat)
      requires this in repr && sound && root != null
      requires Node.Carries(root, o, state) && this !in Node.OwnedBy(root, state)
      requires Linked(Node.LeavesOf(root, state)) && IsBPlusTree(Some(RootOf(o)))
      modifies this
      ensures Valid()
      ensures sound == ok == (state.Absorbed? || budget > 0)
      ensures !ok ==> message != DUPLICATE && left == 0 && repr == old(repr)
      ensures ok ==> model == Some(RootOf(o)) && left == (if state.Absorbed? then budget else budget - 1)
      ensures ok ==> fresh(repr - old(repr) - old(Node.OwnedBy(root, state)))
    {
      hide Node.KidsValid, Linked, IsBPlusTree, Shaped, Flatten, Node.Valid, Node.Represents;
      var newRoot := root;
      left := budget;
      if state.SplitInto? {
        newRoot, left := GrowRoot(state.promotedKey, state.rightNode, budget, o);
        if newRoot == null {
          sound := false;
          return false, "out of memory while growing B+ tree root", 0;
        }
      }
      LeavesOwned(newRoot);
      root, model, repr := newRoot, Some(newRoot.model), repr + newRoot.repr;
      ok, message := true, "";
    }

    /** `bptree_search`: what the map holds for the key, after visiting one node per level. */
    method Search(key: int) returns (found: bool, value: int, ghost visited: nat)
      requires Valid() && sound
      ensures found == (key in Contents(model)) && (found ==> value == Contents(model)[key])
      ensures visited == if model.Some? then Visits(model.value, key) else 0
    {
      found, value, visited := false, 0, 0;
      var node := root;
      if model.Some? {
        LookupIsMapGet(model.value, key);
      }
      while node != null && !node.isLeaf
        invariant (node == null <==> model == None) && (node == null ==> visited == 0)
        invariant node != null ==>
          && node.Valid() && Lookup(node.model, key) == Lookup(model.value, key)
          && visited + Visits(node.model, key) == Visits(model.value, key)
        decreases if node == null then Leaf([], []) else node.model
      {
        assert node.Represents() && Node.KidsValid(node.family);
        var index := node.FindChildIndex(key);
        ghost var f := node.family;
        assert Node.KidValid(f.kids[index], f.trees[index], f.leaves[index], f.region);
        node := node.children[index];
        visited := visited + 1;
      }
      if node == null {
        return;
      }
      visited := visited + 1;
      found, value := node.FindInLeaf(key);
    }

    /** `bptree_free` followed by `bptree_init`: whatever state the tree was in, it is empty again. */
    method Reset()
      requires Valid()
      modifies this
      ensures Valid() && sound && model == None && repr == {this}
    {
      root, model, sound, repr := null, None, true, {this};
    }
  }
}
