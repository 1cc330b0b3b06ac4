/**
  How tall the B+ tree grows: logarithmic bounds for any key order, and the
  exact shape and height under ascending keys, the only order in which the
  index inserts.
*/
module BTreeHeights {
  import opened BTreeModel

  function Pow(base: nat, exponent: nat): nat {
    if exponent == 0 then 1 else base * Pow(base, exponent - 1)
  }

  /** All leaves hold two keys and all branches have three children. */
  ghost predicate Packed(t: Tree, h: nat)
    decreases t
  {
    match t
    case Leaf(keys, vals) => h == 0 && |keys| == |vals| == 2
    case Branch(keys, kids) =>
      && h > 0 && |keys| == 2 && |kids| == 3
      && forall i :: 0 <= i < |kids| ==> Packed(kids[i], h - 1)
  }

  /** Packed everywhere except along the right spine. */
  ghost predicate PackedOffSpine(t: Tree, h: nat)
    decreases t
  {
    match t
    case Leaf(keys, vals) => h == 0 && 2 <= |keys| == |vals| <= MAX_KEYS
    case Branch(keys, kids) =>
      && h > 0 && 1 <= |keys| <= MAX_KEYS && |kids| == |keys| + 1
      && (forall i :: 0 <= i < |keys| ==> Packed(kids[i], h - 1))
      && PackedOffSpine(kids[|keys|], h - 1)
  }

  ghost predicate OutcomePackedOffSpine(o: Outcome, h: nat) {
    match o
    case Duplicate => false
    case Stored(t) => PackedOffSpine(t, h)
    case Split(left, _, right) => Packed(left, h) && PackedOffSpine(right, h)
  }

  /** Every key below `t`, separators included, is smaller than `key`. */
  ghost predicate AllSmaller(t: Tree, key: int)
    decreases t
  {
    && (forall i :: 0 <= i < |t.keys| ==> t.keys[i] < key)
    && (t.Branch? ==> forall i :: 0 <= i < |t.kids| ==> AllSmaller(t.kids[i], key))
  }

  lemma {:induction false} PackedIsShaped(t: Tree, h: nat)
    requires Packed(t, h)
    ensures Shaped(t)
    decreases t
  {
    if t.Branch? {
      forall i | 0 <= i < |t.kids| ensures Shaped(t.kids[i]) {
        PackedIsShaped(t.kids[i], h - 1);
      }
    }
  }

  lemma {:induction false} PackedOffSpineIsShaped(t: Tree, h: nat)
    requires PackedOffSpine(t, h)
    ensures Shaped(t)
    decreases t
  {
    if t.Branch? {
      forall i | 0 <= i < |t.kids| ensures Shaped(t.kids[i]) {
        if i < |t.keys| { PackedIsShaped(t.kids[i], h - 1); } else { PackedOffSpineIsShaped(t.kids[i], h - 1); }
      }
    }
  }

  lemma {:induction false} ChildOfLargest(keys: seq<int>, key: int)
    requires forall i :: 0 <= i < |keys| ==> keys[i] < key
    ensures ChildIndex(keys, key) == LowerBound(keys, key) == |keys|
  {
  }

  /** A key larger than all others goes down the right spine and leaves packed subtrees behind. */
  lemma {:induction false} AscendingPut(t: Tree, h: nat, key: int, value: int)
    requires PackedOffSpine(t, h) && Shaped(t) && AllSmaller(t, key)
    ensures OutcomePackedOffSpine(Put(t, key, value), h)
    decreases t
  {
    hide BranchOutcome, LeafOutcome, InsertAt;
    ChildOfLargest(t.keys, key);
    if t.Leaf? {
      InsertAtEnd(t.keys, key);
      InsertAtEnd(t.vals, value);
      PackedLeaf(t.keys + [key], t.vals + [value]);
    } else {
      var c := |t.keys|;
      AscendingPut(t.kids[c], h - 1, key, value);
      match Put(t.kids[c], key, value) {
        case Stored(kid) =>
        case Split(left, sep, right) =>
          InsertAtEnd(t.keys, sep);
          InsertAtEnd(t.kids[c := left], right);
          PackedBranch(t.keys + [sep], t.kids[c := left] + [right], h - 1);
      }
    }
  }

  lemma InsertAtEnd<T>(s: seq<T>, x: T)
    ensures InsertAt(s, |s|, x) == s + [x]
  {
  }

  lemma PackedLeaf(keys: seq<int>, vals: seq<int>)
    requires 3 <= |keys| == |vals| <= MAX_KEYS + 1
    ensures OutcomePackedOffSpine(LeafOutcome(keys, vals), 0)
  {
  }

  lemma PackedBranch(keys: seq<int>, kids: seq<Tree>, h: nat)
    requires 1 <= |keys| <= MAX_KEYS + 1 && |kids| == |keys| + 1
    requires forall i :: 0 <= i < |keys| ==> Packed(kids[i], h)
    requires PackedOffSpine(kids[|keys|], h)
    ensures OutcomePackedOffSpine(BranchOutcome(keys, kids), h + 1)
  {
  }

  // ----- Sizes -------------------------------------------------------------

  function Size(t: Tree): nat
    requires Shaped(t)
  {
    |Entries(t)|
  }

  lemma {:induction false} SizeBetween(kids: seq<Tree>, lo: nat, hi: nat)
    requires forall i :: 0 <= i < |kids| ==> Shaped(kids[i]) && lo <= Size(kids[i]) <= hi
    ensures |kids| * lo <= |AllEntries(kids)| <= |kids| * hi
  {
    hide Entries, AllEntries, Shaped;
    if kids == [] {
      AllEntriesNone();
    } else {
      SizeBetween(kids[1..], lo, hi);
      AllEntriesFirst(kids);
      OneMore(|kids[1..]|, lo);
      OneMore(|kids[1..]|, hi);
    }
  }

  lemma OneMore(n: nat, factor: nat)
    ensures (n + 1) * factor == factor + n * factor
  {
  }

  lemma AllEntriesNone()
    ensures AllEntries([]) == []
  {
  }

  /** Any key order: 2^(h+1) <= n <= 3 * 4^h, so a tree of n keys is logarithmically tall. */
  lemma {:induction false} HeightBounds(t: Tree, h: nat)
    requires Balanced(t, h) && Shaped(t)
    ensures Pow(2, h + 1) <= Size(t) <= 3 * Pow(4, h)
    decreases t
  {
    if t.Branch? {
      forall i | 0 <= i < |t.kids| ensures Pow(2, h) <= Size(t.kids[i]) <= 3 * Pow(4, h - 1) {
        HeightBounds(t.kids[i], h - 1);
      }
      SizeBetween(t.kids, Pow(2, h), 3 * Pow(4, h - 1));
      assert 2 * Pow(2, h) <= |t.kids| * Pow(2, h);
      assert |t.kids| * (3 * Pow(4, h - 1)) <= 4 * (3 * Pow(4, h - 1));
    }
  }

  lemma {:induction false} PackedSize(t: Tree, h: nat)
    requires Packed(t, h) && Shaped(t)
    ensures Size(t) == 2 * Pow(3, h)
    decreases t
  {
    if t.Branch? {
      forall i | 0 <= i < |t.kids| ensures Size(t.kids[i]) == 2 * Pow(3, h - 1) {
        PackedSize(t.kids[i], h - 1);
      }
      SizeBetween(t.kids, 2 * Pow(3, h - 1), 2 * Pow(3, h - 1));
    }
  }

  lemma SpineSize(n: nat, h: nat, unit: nat, packed: nat, last: nat, size: nat)
    requires h > 0 && unit == 2 * Pow(3, h - 1) && 1 <= n <= MAX_KEYS
    requires packed == n * unit && Pow(3, h - 1) < last <= Pow(3, h) && size == packed + last
    ensures Pow(3, h) < size <= Pow(3, h + 1)
  {
  }

  /** Ascending keys: 3^h < n <= 3^(h+1), so h + 1 is exactly the ceiling of log3(n). */
  lemma {:induction false} ExactHeight(t: Tree, h: nat)
    requires PackedOffSpine(t, h) && Shaped(t)
    ensures Pow(3, h) < Size(t) <= Pow(3, h + 1)
    decreases t
  {
    if t.Branch? {
      var n, unit := |t.keys|, 2 * Pow(3, h - 1);
      EntriesAround(t.kids, n);
      assert t.kids[n + 1..] == [];
      ExactHeight(t.kids[n], h - 1);
      forall i | 0 <= i < n ensures Shaped(t.kids[..n][i]) && Size(t.kids[..n][i]) == unit {
        PackedSize(t.kids[i], h - 1);
      }
      SizeBetween(t.kids[..n], unit, unit);
      SpineSize(n, h, unit, |AllEntries(t.kids[..n])|, Size(t.kids[n]), Size(t));
    }
  }

  /** A lookup visits one node per level. */
  lemma {:induction false} VisitsOnePerLevel(t: Tree, h: nat, key: int)
    requires BalancedRoot(t, h) && Shaped(t)
    ensures Visits(t, key) == h + 1
    decreases t
  {
    if t.Branch? {
      VisitsOnePerLevel(t.kids[ChildIndex(t.keys, key)], h - 1, key);
    }
  }

  lemma {:induction false} PackedIsBalanced(t: Tree, h: nat)
    requires Packed(t, h)
    ensures Balanced(t, h)
    decreases t
  {
    if t.Branch? {
      forall i | 0 <= i < |t.kids| ensures Balanced(t.kids[i], h - 1) {
        PackedIsBalanced(t.kids[i], h - 1);
      }
    }
  }

  lemma {:induction false} PackedOffSpineIsBalanced(t: Tree, h: nat)
    requires PackedOffSpine(t, h)
    ensures Balanced(t, h)
    decreases t
  {
    if t.Branch? {
      forall i | 0 <= i < |t.kids| ensures Balanced(t.kids[i], h - 1) {
        if i < |t.keys| { PackedIsBalanced(t.kids[i], h - 1); } else { PackedOffSpineIsBalanced(t.kids[i], h - 1); }
      }
    }
  }
}
