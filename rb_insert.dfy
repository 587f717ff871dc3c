/** Insertion into the left-leaning red-black tree: `insertNoReplace`, which keeps
    every equivalent item, and `replaceOrInsert`, which overwrites one. Both descend
    to a nil link, hang a red node there and repair the shape with `walkUpRot23` on
    the way back up. */
module RedBlackInsert {
  import opened Ordering
  import opened RedBlackNodes

  /** insertNoReplace: `x` goes left of a node whose item sorts after it and right of
      any other, so it lands after every item equivalent to it. */
  function InsertNoReplace<T>(o: Order<T>, h: Tree<T>, x: T): (r: Tree<T>)
    ensures r.Node?
    ensures |Items(r)| == |Items(h)| + 1
  {
    if h.Nil? then Node(Nil, x, Nil, false)
    else if o.Lt(x, h.item) then WalkUpRot23(h.(left := InsertNoReplace(o, h.left, x)))
    else WalkUpRot23(h.(right := InsertNoReplace(o, h.right, x)))
  }

  /** A new left subtree that holds the old one's items with `x` at its upper bound
      holds, together with the node's item and right subtree, the node's items with
      `x` at their upper bound, when `x` sorts before the node's item. */
  lemma SplicedLeft<T>(o: Order<T>, h: Tree<T>, x: T, l: Tree<T>)
    requires h.Node? && o.Lt(x, h.item) && NonDecreasing(o, Items(h))
    requires var L := Items(h.left); var u := UpperBound(o, L, x); Items(l) == L[..u] + [x] + L[u..]
    ensures var s, u := Items(h), UpperBound(o, Items(h), x);
      Items(h.(left := l)) == s[..u] + [x] + s[u..]
  {
    var L, R := Items(h.left), Items(h.right);
    OrderedParts(o, L, h.item, R);
    UpperBoundLeft(o, L, h.item, R, x);
    SpliceLeft(Items(h), L, h.item, R, UpperBound(o, L, x), x);
  }

  /** The mirror image of `SplicedLeft`, when `x` does not sort before the node's item. */
  lemma SplicedRight<T>(o: Order<T>, h: Tree<T>, x: T, r: Tree<T>)
    requires h.Node? && !o.Lt(x, h.item) && NonDecreasing(o, Items(h))
    requires var R := Items(h.right); var u := UpperBound(o, R, x); Items(r) == R[..u] + [x] + R[u..]
    ensures var s, u := Items(h), UpperBound(o, Items(h), x);
      Items(h.(right := r)) == s[..u] + [x] + s[u..]
  {
    var L, R := Items(h.left), Items(h.right);
    OrderedParts(o, L, h.item, R);
    UpperBoundRight(o, L, h.item, R, x);
    SpliceRight(Items(h), L, h.item, R, UpperBound(o, R, x), x);
  }

  /** In an ordered tree the new item goes in at its upper bound: after everything that
      does not sort after it, before everything that does. */
  lemma {:induction false} InsertNoReplaceItems<T>(o: Order<T>, h: Tree<T>, x: T)
    requires NonDecreasing(o, Items(h))
    ensures var s, u := Items(h), UpperBound(o, Items(h), x);
      Items(InsertNoReplace(o, h, x)) == s[..u] + [x] + s[u..]
  {
    var s := Items(h);
    if h.Nil? {
      assert s[..0] + [x] + s[0..] == [x];
    } else {
      OrderedParts(o, Items(h.left), h.item, Items(h.right));
      if o.Lt(x, h.item) {
        var l := InsertNoReplace(o, h.left, x);
        InsertNoReplaceItems(o, h.left, x);
        SplicedLeft(o, h, x, l);
        assert InsertNoReplace(o, h, x) == WalkUpRot23(h.(left := l));
      } else {
        var r := InsertNoReplace(o, h.right, x);
        InsertNoReplaceItems(o, h.right, x);
        SplicedRight(o, h, x, r);
        assert InsertNoReplace(o, h, x) == WalkUpRot23(h.(right := r));
      }
    }
  }

  /** Below a valid node, a left subtree handed back with the black height kept and
      at most a red pair on top, and wholly a 2-3 shape when the old one was black, is
      repaired by `walkUpRot23` into a subtree of the node's black height: a 2-3 shape
      below its top, and wholly one when the node is black. */
  lemma RepairedLeft<T>(h: Tree<T>, l: Tree<T>)
    requires h.Node? && Valid(h)
    requires Balanced(l) && BH(l) == BH(h.left) && LLBelow(l) && (!IsRed(h.left) ==> LL(l))
    requires l.Node?
    ensures var r := WalkUpRot23(h.(left := l));
      Balanced(r) && BH(r) == BH(h) && LLBelow(r) && (!IsRed(h) ==> LL(r))
  {
    assert LL(h.right) && !IsRed(h.right);
    WalkUpRepairs(h.(left := l));
  }

  /** The mirror image of `RepairedLeft`, for a new right subtree. */
  lemma RepairedRight<T>(h: Tree<T>, r: Tree<T>)
    requires h.Node? && Valid(h)
    requires Balanced(r) && BH(r) == BH(h.right) && LLBelow(r) && (!IsRed(h.right) ==> LL(r))
    requires r.Node?
    ensures var t := WalkUpRot23(h.(right := r));
      Balanced(t) && BH(t) == BH(h) && LLBelow(t) && (!IsRed(h) ==> LL(t))
  {
    assert LL(h.left) && (IsRed(h.left) ==> LL(h.left.left) && !IsRed(h.left.left));
    WalkUpRepairs(h.(right := r));
  }

  /** Insertion keeps the black height, leaves a 2-3 shape below the returned top, and
      a 2-3 shape outright below a black node: only a red node can hand back a pair of
      red links, which its black parent then splits. */
  lemma {:induction false} InsertNoReplaceShape<T>(o: Order<T>, h: Tree<T>, x: T)
    requires Valid(h)
    ensures var r := InsertNoReplace(o, h, x);
      Balanced(r) && BH(r) == BH(h) && LLBelow(r) && (!IsRed(h) ==> LL(r))
  {
    if h.Node? {
      if o.Lt(x, h.item) {
        var l := InsertNoReplace(o, h.left, x);
        InsertNoReplaceShape(o, h.left, x);
        RepairedLeft(h, l);
        assert InsertNoReplace(o, h, x) == WalkUpRot23(h.(left := l));
      } else {
        var r := InsertNoReplace(o, h.right, x);
        InsertNoReplaceShape(o, h.right, x);
        RepairedRight(h, r);
        assert InsertNoReplace(o, h, x) == WalkUpRot23(h.(right := r));
      }
    }
  }

  /** replaceOrInsert: the search for `x` either meets an equivalent item, which `x`
      overwrites and which is handed back, or ends at a nil link, where `x` is hung. */
  function ReplaceOrInsert<T>(o: Order<T>, h: Tree<T>, x: T): (r: (Tree<T>, Option<T>))
    ensures r.0.Node?
    ensures |Items(r.0)| == |Items(h)| + (if r.1.Some? then 0 else 1)
    ensures r.1.Some? ==> o.Equiv(r.1.value, x) && r.1.value in Items(h)
  {
    if h.Nil? then (Node(Nil, x, Nil, false), None)
    else if o.Lt(x, h.item) then
      var (l, replaced) := ReplaceOrInsert(o, h.left, x);
      (WalkUpRot23(h.(left := l)), replaced)
    else if o.Lt(h.item, x) then
      var (r, replaced) := ReplaceOrInsert(o, h.right, x);
      (WalkUpRot23(h.(right := r)), replaced)
    else
      (WalkUpRot23(h.(item := x)), Some(h.item))
  }

  /** Overwriting a node's own item overwrites the item after its left part. */
  lemma ReplacedHere<T>(h: Tree<T>, x: T)
    requires h.Node?
    ensures var s, k := Items(h), |Items(h.left)|;
      k < |s| && s[k] == h.item && Items(h.(item := x)) == s[k := x]
  {
  }

  /** Overwriting the `k`-th item of a node's left part overwrites the `k`-th item
      of the node's items. */
  lemma ReplacedLeft<T>(h: Tree<T>, l: Tree<T>, k: int, x: T)
    requires h.Node? && 0 <= k < |Items(h.left)| && Items(l) == Items(h.left)[k := x]
    ensures Items(h)[k] == Items(h.left)[k] && Items(h.(left := l)) == Items(h)[k := x]
  {
    var L, R := Items(h.left), Items(h.right);
    assert (L + [h.item] + R)[k] == L[k];
    assert L[k := x] + [h.item] + R == (L + [h.item] + R)[k := x];
  }

  /** Overwriting the `k`-th item of a node's right part overwrites the item that many
      places after the node's own. */
  lemma ReplacedRight<T>(h: Tree<T>, r: Tree<T>, k: int, x: T)
    requires h.Node? && 0 <= k < |Items(h.right)| && Items(r) == Items(h.right)[k := x]
    ensures var j := |Items(h.left)| + 1 + k;
      Items(h)[j] == Items(h.right)[k] && Items(h.(right := r)) == Items(h)[j := x]
  {
    var L, R := Items(h.left), Items(h.right);
    var j := |L| + 1 + k;
    assert (L + [h.item] + R)[j] == R[k];
    assert L + [h.item] + R[k := x] == (L + [h.item] + R)[j := x];
  }

  /** When `x` sorts before a node's item and nothing on the left is equivalent to
      it, nothing in the node is. */
  lemma LacksLeft<T>(o: Order<T>, h: Tree<T>, x: T)
    requires h.Node? && o.Lt(x, h.item) && NonDecreasing(o, Items(h)) && Lacks(o, Items(h.left), x)
    ensures Lacks(o, Items(h), x)
  {
    var L, R := Items(h.left), Items(h.right);
    var s := Items(h);
    OrderedParts(o, L, h.item, R);
    assert forall i :: 0 <= i < |L| ==> s[i] == L[i];
    assert forall i :: 0 <= i < |R| ==> s[|L| + 1 + i] == R[i];
    assert s[|L|] == h.item;
  }

  /** The mirror image of `LacksLeft`. */
  lemma LacksRight<T>(o: Order<T>, h: Tree<T>, x: T)
    requires h.Node? && o.Lt(h.item, x) && NonDecreasing(o, Items(h)) && Lacks(o, Items(h.right), x)
    ensures Lacks(o, Items(h), x)
  {
    var L, R := Items(h.left), Items(h.right);
    var s := Items(h);
    OrderedParts(o, L, h.item, R);
    assert forall i :: 0 <= i < |L| ==> s[i] == L[i];
    assert forall i :: 0 <= i < |R| ==> s[|L| + 1 + i] == R[i];
    assert s[|L|] == h.item;
  }

  /** In an ordered tree, `replaceOrInsert` overwrites one item equivalent to `x` in
      place and hands it back, or, when there is none, inserts `x` at its upper bound. */
  lemma {:induction false} ReplaceOrInsertItems<T>(o: Order<T>, h: Tree<T>, x: T)
    requires NonDecreasing(o, Items(h))
    ensures var (t, replaced) := ReplaceOrInsert(o, h, x);
      var s, u := Items(h), UpperBound(o, Items(h), x);
      (replaced.Some? ==> exists k :: 0 <= k < |s| && s[k] == replaced.value && Items(t) == s[k := x]) &&
      (replaced.None? ==> Lacks(o, s, x) && Items(t) == s[..u] + [x] + s[u..])
  {
    var s := Items(h);
    if h.Nil? {
      assert s[..0] + [x] + s[0..] == [x];
    } else {
      OrderedParts(o, Items(h.left), h.item, Items(h.right));
      if o.Lt(x, h.item) {
        ReplaceOrInsertItems(o, h.left, x);
        var (l, replaced) := ReplaceOrInsert(o, h.left, x);
        assert ReplaceOrInsert(o, h, x) == (WalkUpRot23(h.(left := l)), replaced);
        if replaced.Some? {
          var k :| 0 <= k < |Items(h.left)| && Items(h.left)[k] == replaced.value && Items(l) == Items(h.left)[k := x];
          ReplacedLeft(h, l, k, x);
        } else {
          SplicedLeft(o, h, x, l);
          LacksLeft(o, h, x);
        }
      } else if o.Lt(h.item, x) {
        ReplaceOrInsertItems(o, h.right, x);
        var (r, replaced) := ReplaceOrInsert(o, h.right, x);
        assert ReplaceOrInsert(o, h, x) == (WalkUpRot23(h.(right := r)), replaced);
        if replaced.Some? {
          var k :| 0 <= k < |Items(h.right)| && Items(h.right)[k] == replaced.value && Items(r) == Items(h.right)[k := x];
          ReplacedRight(h, r, k, x);
        } else {
          SplicedRight(o, h, x, r);
          LacksRight(o, h, x);
        }
      } else {
        var t := WalkUpRot23(h.(item := x));
        assert ReplaceOrInsert(o, h, x) == (t, Some(h.item));
        ReplacedHere(h, x);
        var k := |Items(h.left)|;
        assert 0 <= k < |s| && s[k] == h.item && Items(t) == s[k := x];
      }
    }
  }

  /** On a tree without equivalent items, `replaceOrInsert` is the upsert of the sorted
      contents, handing back what a lookup of `x` finds. */
  lemma ReplaceOrInsertUpserts<T>(o: Order<T>, h: Tree<T>, x: T)
    requires Ascending(o, Items(h))
    ensures var (t, replaced) := ReplaceOrInsert(o, h, x);
      Items(t) == Upserted(o, Items(h), x) && replaced == Lookup(o, Items(h), x)
  {
    var s := Items(h);
    ReplaceOrInsertItems(o, h, x);
    var (t, replaced) := ReplaceOrInsert(o, h, x);
    if replaced.Some? {
      var k :| 0 <= k < |s| && s[k] == replaced.value && Items(t) == s[k := x];
      BoundsAt(o, s, x, k);
    } else {
      var p := LowerBound(o, s, x);
      assert !Holds(o, s, x) by {
        if p < |s| {
          assert !o.Equiv(s[p], x);
        }
      }
      Gap(o, s, x);
      UpperBoundUnique(o, s, x, p);
    }
  }

  /** On a valid node, `walkUpRot23` has nothing to repair, whatever item the node
      holds. */
  lemma WalkUpKeepsValid<T>(h: Tree<T>, x: T)
    requires h.Node? && Valid(h)
    ensures WalkUpRot23(h.(item := x)) == h.(item := x) && Valid(h.(item := x))
  {
    assert LL(h.left) && !IsRed(h.right);
  }

  /** Replacing keeps the black height and the shapes `InsertNoReplaceShape` names. */
  lemma {:induction false} ReplaceOrInsertShape<T>(o: Order<T>, h: Tree<T>, x: T)
    requires Valid(h)
    ensures var r := ReplaceOrInsert(o, h, x).0;
      Balanced(r) && BH(r) == BH(h) && LLBelow(r) && (!IsRed(h) ==> LL(r))
  {
    if h.Node? {
      if o.Lt(x, h.item) {
        var l := ReplaceOrInsert(o, h.left, x).0;
        ReplaceOrInsertShape(o, h.left, x);
        RepairedLeft(h, l);
      } else if o.Lt(h.item, x) {
        var r := ReplaceOrInsert(o, h.right, x).0;
        ReplaceOrInsertShape(o, h.right, x);
        RepairedRight(h, r);
      } else {
        WalkUpKeepsValid(h, x);
      }
    }
  }

  /** Overwriting an item of an ordered sequence with an equivalent one leaves it
      ordered. */
  lemma ReplacedOrdered<T>(o: Order<T>, s: seq<T>, k: nat, x: T)
    requires NonDecreasing(o, s) && k < |s| && o.Equiv(s[k], x)
    ensures NonDecreasing(o, s[k := x])
  {
  }
}
