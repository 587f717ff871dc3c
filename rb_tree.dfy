/** The left-leaning red-black tree itself (rbtree/rbtree.go:13-17): its root, its
    size and its comparator. The lookups are loops down from the root; the updates
    run the recursive operations on the root, colour the new root black and keep the
    size; the traversals start the recursive ones at the root. */
module RedBlackTrees {
  import opened Ordering
  import opened RedBlackNodes
  import opened RedBlackInsert
  import opened RedBlackDelete
  import opened RedBlackScans

  class LLRB<T> {
    var count: int
    var root: Tree<T>
    const less: Order<T>

    /** A left-leaning red-black tree with a black root, its items in order and its
        size counted. */
    ghost predicate Valid()
      reads this
    {
      count == |Items(root)| && RedBlackNodes.Valid(root) && !IsRed(root) &&
      NonDecreasing(less, Items(root))
    }

    /** The items of the tree in order. */
    ghost function Contents(): seq<T>
      reads this
    {
      Items(root)
    }

    /** NewFunc: an empty tree ordered by `less`. */
    constructor (less: Order<T>)
      ensures Valid() && Contents() == [] && this.less == less
    {
      count, root, this.less := 0, Nil, less;
    }

    /** Len: the number of items. */
    function Len(): (n: int)
      reads this
      requires Valid()
      ensures n == |Contents()|
    {
      count
    }

    /** Get: down from the root, left of items the key sorts before, right of items
        that sort before the key, until an equivalent item turns up. */
    method Get(key: T) returns (r: Option<T>)
      requires Valid()
      ensures r.Some? <==> !Lacks(less, Contents(), key)
      ensures r.Some? ==> r.value in Contents() && less.Equiv(r.value, key)
      ensures Ascending(less, Contents()) ==> r == Lookup(less, Contents(), key)
    {
      var h := root;
      while h.Node?
        invariant NonDecreasing(less, Items(h))
        invariant Lacks(less, Items(h), key) <==> Lacks(less, Contents(), key)
        invariant forall i :: 0 <= i < |Items(h)| ==> Items(h)[i] in Contents()
        decreases h
      {
        Search(less, h, key);
        if less.Lt(key, h.item) {
          h := h.left;
        } else if less.Lt(h.item, key) {
          h := h.right;
        } else {
          assert Items(h)[|Items(h.left)|] == h.item;
          r := Some(h.item);
          if Ascending(less, Contents()) {
            LookupFinds(less, Contents(), key, h.item);
          }
          return;
        }
      }
      r := None;
    }

    /** Has: whether Get finds an equivalent item. */
    method Has(key: T) returns (found: bool)
      requires Valid()
      ensures found <==> !Lacks(less, Contents(), key)
    {
      var r := Get(key);
      found := r.Some?;
    }

    /** Min: down the left links to the first item. */
    method Min() returns (r: Option<T>)
      requires Valid()
      ensures r == if Contents() == [] then None else Some(Contents()[0])
      ensures r.Some? ==> forall i :: 0 <= i < |Contents()| ==> !less.Lt(Contents()[i], r.value)
    {
      if root.Nil? {
        return None;
      }
      var h := root;
      while h.left.Node?
        invariant h.Node? && Items(h)[0] == Contents()[0]
        decreases h
      {
        assert Items(h.left) != [];
        h := h.left;
      }
      r := Some(h.item);
    }

    /** Max: down the right links to the last item. */
    method Max() returns (r: Option<T>)
      requires Valid()
      ensures r == if Contents() == [] then None else Some(Contents()[|Contents()| - 1])
      ensures r.Some? ==> forall i :: 0 <= i < |Contents()| ==> !less.Lt(r.value, Contents()[i])
    {
      if root.Nil? {
        return None;
      }
      var h := root;
      while h.right.Node?
        invariant h.Node? && Items(h)[|Items(h)| - 1] == Contents()[|Contents()| - 1]
        decreases h
      {
        assert Items(h.right) != [];
        h := h.right;
      }
      r := Some(h.item);
    }

    /** Upsert: an equivalent item is overwritten where it stands and handed back, and
        the size stays; otherwise the item goes in after every item that does not
        sort after it, and the size grows by one. The root ends up black. */
    method Upsert(item: T) returns (prev: Option<T>)
      requires Valid()
      modifies this
      ensures Valid()
      ensures var s, u := old(Contents()), UpperBound(less, old(Contents()), item);
        (prev.Some? ==> exists k :: 0 <= k < |s| && prev.value == s[k] && less.Equiv(s[k], item) && Contents() == s[k := item]) &&
        (prev.None? ==> Lacks(less, s, item) && Contents() == s[..u] + [item] + s[u..])
      ensures count == old(count) + (if prev.Some? then 0 else 1)
      ensures Ascending(less, old(Contents())) ==>
        prev == Lookup(less, old(Contents()), item) && Contents() == Upserted(less, old(Contents()), item)
    {
      ghost var s := Items(root);
      ReplaceOrInsertItems(less, root, item);
      ReplaceOrInsertShape(less, root, item);
      if Ascending(less, s) {
        ReplaceOrInsertUpserts(less, root, item);
      }
      var (t, replaced) := ReplaceOrInsert(less, root, item);
      if replaced.Some? {
        ghost var k :| 0 <= k < |s| && s[k] == replaced.value && Items(t) == s[k := item];
        ReplacedOrdered(less, s, k, item);
      } else {
        SpliceOrdered(less, s, item);
      }
      root := Blacken(t);
      if replaced.None? {
        count := count + 1;
      }
      prev := replaced;
    }

    /** Insert: the item goes in after every item that does not sort after it, next to
        any equivalent ones, and the size grows by one. The root ends up black. */
    method Insert(item: T)
      requires Valid()
      modifies this
      ensures Valid()
      ensures var s, u := old(Contents()), UpperBound(less, old(Contents()), item);
        Contents() == s[..u] + [item] + s[u..]
      ensures count == old(count) + 1
    {
      InsertNoReplaceItems(less, root, item);
      InsertNoReplaceShape(less, root, item);
      SpliceOrdered(less, Items(root), item);
      root := Blacken(InsertNoReplace(less, root, item));
      count := count + 1;
    }

    /** DeleteMin: the first item is taken out and handed back; an empty tree stays
        as it is. A root that is left is coloured black. */
    method DeleteMin() returns (r: Option<T>)
      requires Valid()
      modifies this
      ensures Valid()
      ensures old(Contents()) == [] ==> r.None? && Contents() == []
      ensures old(Contents()) != [] ==> r == Some(old(Contents())[0]) && Contents() == old(Contents())[1..]
      ensures count == old(count) - (if r.Some? then 1 else 0)
    {
      DeleteMinRoot(root);
      var (t, d) := RedBlackDelete.DeleteMin(root);
      if d.Some? {
        ghost var s := Items(root);
        CutOrdered(less, s, 0);
        assert s[..0] + s[1..] == s[1..];
      }
      root := Blacken(t);
      if d.Some? {
        count := count - 1;
      }
      r := d;
    }

    /** DeleteMax: the last item is taken out and handed back; an empty tree stays as
        it is. A root that is left is coloured black. */
    method DeleteMax() returns (r: Option<T>)
      requires Valid()
      modifies this
      ensures Valid()
      ensures old(Contents()) == [] ==> r.None? && Contents() == []
      ensures var s := old(Contents());
        s != [] ==> r == Some(s[|s| - 1]) && Contents() == s[..|s| - 1]
      ensures count == old(count) - (if r.Some? then 1 else 0)
    {
      DeleteMaxRoot(root);
      var (t, d) := RedBlackDelete.DeleteMax(root);
      if d.Some? {
        ghost var s := Items(root);
        assert s[..|s| - 1] == Items(t);
        CutOrdered(less, s, |s| - 1);
        assert s[..|s| - 1] + s[|s|..] == Items(t);
      }
      root := Blacken(t);
      if d.Some? {
        count := count - 1;
      }
      r := d;
    }

    /** Delete: one item equivalent to the key, if there is one, is taken out and
        handed back, and the size drops by one; otherwise nothing changes. A root that
        is left is coloured black. */
    method Delete(key: T) returns (r: Option<T>)
      requires Valid()
      modifies this
      ensures Valid()
      ensures RemovedOne(less, old(Contents()), key, r, Contents())
      ensures count == old(count) - (if r.Some? then 1 else 0)
      ensures Ascending(less, old(Contents())) ==>
        r == Lookup(less, old(Contents()), key) && Contents() == Removed(less, old(Contents()), key)
    {
      ghost var s := Items(root);
      DeleteRoot(less, root, key);
      DeleteItems(less, root, key);
      if Ascending(less, s) {
        DeleteRemoves(less, root, key);
      }
      var (t, d) := RedBlackDelete.Delete(less, root, key);
      if d.Some? {
        ghost var k :| 0 <= k < |s| && less.Equiv(s[k], key) && d.value == s[k] && Items(t) == s[..k] + s[k + 1..];
        CutOrdered(less, s, k);
      }
      root := Blacken(t);
      if d.Some? {
        count := count - 1;
      }
      r := d;
    }

    /** Scan: offers every item in order until the visitor returns false; `shown` is
        what it was called with. */
    method Scan(iter: (seq<T>, T) -> bool) returns (shown: seq<T>)
      requires Valid()
      ensures shown == Visit(iter, [], Contents()).visited
    {
      AscendVisits(root, iter, []);
      shown := Ascend(root, iter, []).visited;
    }

    /** ReverseScan: offers every item in reverse order until the visitor returns
        false. */
    method ReverseScan(iter: (seq<T>, T) -> bool) returns (shown: seq<T>)
      requires Valid()
      ensures shown == Visit(iter, [], Reverse(Contents())).visited
    {
      DescendVisits(root, iter, []);
      shown := Descend(root, iter, []).visited;
    }

    /** AscendRange: offers the items at least `greaterOrEqual` and below `lessThan`,
        in order, until the visitor returns false. */
    method AscendRange(greaterOrEqual: T, lessThan: T, iter: (seq<T>, T) -> bool) returns (shown: seq<T>)
      requires Valid()
      ensures shown == Visit(iter, [], Select(Contents(), InRange(less, greaterOrEqual, lessThan))).visited
    {
      AscendRangeVisits(less, root, greaterOrEqual, lessThan, iter, []);
      shown := RedBlackScans.AscendRange(less, root, greaterOrEqual, lessThan, iter, []).visited;
    }

    /** AscendGreaterOrEqual: offers the items not below `pivot`, in order, until the
        visitor returns false. */
    method AscendGreaterOrEqual(pivot: T, iter: (seq<T>, T) -> bool) returns (shown: seq<T>)
      requires Valid()
      ensures shown == Visit(iter, [], Select(Contents(), GreaterOrEqual(less, pivot))).visited
    {
      AscendGreaterOrEqualVisits(less, root, pivot, iter, []);
      shown := RedBlackScans.AscendGreaterOrEqual(less, root, pivot, iter, []).visited;
    }

    /** AscendLessThan: offers the items below `pivot`, in order, until the visitor
        returns false. */
    method AscendLessThan(pivot: T, iter: (seq<T>, T) -> bool) returns (shown: seq<T>)
      requires Valid()
      ensures shown == Visit(iter, [], Select(Contents(), LessThan(less, pivot))).visited
    {
      AscendLessThanVisits(less, root, pivot, iter, []);
      shown := RedBlackScans.AscendLessThan(less, root, pivot, iter, []).visited;
    }

    /** DescendLessOrEqual: offers the items not above `pivot`, in reverse order,
        until the visitor returns false. */
    method DescendLessOrEqual(pivot: T, iter: (seq<T>, T) -> bool) returns (shown: seq<T>)
      requires Valid()
      ensures shown == Visit(iter, [], Reverse(Select(Contents(), LessOrEqual(less, pivot)))).visited
    {
      DescendLessOrEqualVisits(less, root, pivot, iter, []);
      shown := RedBlackScans.DescendLessOrEqual(less, root, pivot, iter, []).visited;
    }

    /** Values: every item in order, collected by a visitor that never stops. */
    method Values() returns (items: seq<T>)
      requires Valid()
      ensures items == Contents()
    {
      AscendVisits(root, Collector(), []);
      CollectAll([], Items(root));
      items := Ascend(root, Collector(), []).visited;
    }
  }

  /** One step of Get: a key that sorts before the node's item can only be in the
      left subtree, one that sorts after it only in the right subtree. */
  lemma Search<T>(o: Order<T>, h: Tree<T>, key: T)
    requires h.Node? && NonDecreasing(o, Items(h))
    ensures NonDecreasing(o, Items(h.left)) && NonDecreasing(o, Items(h.right))
    ensures o.Lt(key, h.item) ==> (Lacks(o, Items(h), key) <==> Lacks(o, Items(h.left), key))
    ensures o.Lt(h.item, key) ==> (Lacks(o, Items(h), key) <==> Lacks(o, Items(h.right), key))
    ensures forall i :: 0 <= i < |Items(h.left)| ==> Items(h.left)[i] in Items(h)
    ensures forall i :: 0 <= i < |Items(h.right)| ==> Items(h.right)[i] in Items(h)
  {
    var L, x, R := Items(h.left), h.item, Items(h.right);
    var s := Items(h);
    OrderedParts(o, L, x, R);
    assert forall i :: 0 <= i < |L| ==> s[i] == L[i];
    assert s[|L|] == x;
    assert forall i :: 0 <= i < |R| ==> s[|L| + 1 + i] == R[i];
  }

  /** In an ascending sequence, the item a lookup finds is the only one equivalent to
      the key. */
  lemma LookupFinds<T>(o: Order<T>, s: seq<T>, key: T, y: T)
    requires Ascending(o, s) && y in s && o.Equiv(y, key)
    ensures Lookup(o, s, key) == Some(y)
  {
    var i :| 0 <= i < |s| && s[i] == y;
    BoundsAt(o, s, key, i);
  }
}
